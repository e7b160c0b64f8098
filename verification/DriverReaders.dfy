/** Clients that read their replies while other clients write. */
module DriverReaders {
  import opened Machine
  import opened Sequences
  import opened CommandLog
  import opened Calls
  import opened SerialRuns
  import opened DriverThreads
  import opened Readers

  /** A run of a new device. */
  ghost predicate Ran(n: Slots, start: Serial, trace: seq<Event>) {
    start.store == FRESH && InRange(trace, |start.positions|) && Explained(n, start, trace)
  }

  /** Before call `i`. */
  ghost function Moment(n: Slots, start: Serial, trace: seq<Event>, i: nat): (st: Serial)
    requires InRange(trace, |start.positions|) && i <= |trace|
    ensures |st.positions| == |start.positions|
  {
    Replay(n, start, trace[..i])
  }

  lemma {:induction false} MomentGives(n: Slots, start: Serial, trace: seq<Event>, i: nat)
    requires Ran(n, start, trace) && i < |trace|
    ensures Gives(n, Moment(n, start, trace, i), trace[i])
  {
    assert Explains(n, start, trace, i);
  }

  lemma {:induction false} MomentNext(n: Slots, start: Serial, trace: seq<Event>, i: nat)
    requires InRange(trace, |start.positions|) && i < |trace|
    ensures Moment(n, start, trace, i + 1) == After(n, Moment(n, start, trace, i), trace[i])
  {
    var longer := trace[..i + 1];
    assert longer[..i] == trace[..i] && longer[i] == trace[i];
  }

  lemma {:induction false} MomentSound(n: Slots, start: Serial, trace: seq<Event>, i: nat)
    requires Ran(n, start, trace) && i <= |trace|
    ensures Settled(Moment(n, start, trace, i).store.log) && Sized(Moment(n, start, trace, i).store.log)
    decreases i
  {
    if i > 0 {
      MomentSound(n, start, trace, i - 1);
      MomentGives(n, start, trace, i - 1);
      MomentNext(n, start, trace, i - 1);
      var s, e := Moment(n, start, trace, i - 1).store, trace[i - 1];
      AfterCallSettled(s, e.op, e.lead);
      AfterCallSized(s, e.op, e.lead);
    } else {
      assert trace[..0] == [];
    }
  }

  /** Commands are only ever added. */
  lemma {:induction false} MomentGrows(n: Slots, start: Serial, trace: seq<Event>, i: nat, j: nat)
    requires InRange(trace, |start.positions|) && i <= j <= |trace|
    ensures LogAt(n, start, trace, i).committed <= LogAt(n, start, trace, j).committed
  {
    var held := seq(|trace| + 1, k requires 0 <= k <= |trace| => LogAt(n, start, trace, k).committed);
    forall k | 0 <= k < |trace|
      ensures Extends(held, k)
    {
      GrowsOnce(n, start, trace, k);
    }
    ExtendsOn(held, i, j);
  }

  ghost predicate Extends(held: seq<seq<seq<Byte>>>, k: nat)
    requires k + 1 < |held|
  {
    held[k] <= held[k + 1]
  }

  lemma {:induction false} ExtendsOn(held: seq<seq<seq<Byte>>>, i: nat, j: nat)
    requires i <= j < |held| && forall k :: 0 <= k < |held| - 1 ==> Extends(held, k)
    ensures held[i] <= held[j]
    decreases j
  {
    if i < j {
      ExtendsOn(held, i, j - 1);
      assert Extends(held, j - 1);
    }
  }

  lemma {:induction false} GrowsOnce(n: Slots, start: Serial, trace: seq<Event>, i: nat)
    requires InRange(trace, |start.positions|) && i < |trace|
    ensures LogAt(n, start, trace, i).committed <= LogAt(n, start, trace, i + 1).committed
  {
    MomentNext(n, start, trace, i);
    AfterCallGrows(Moment(n, start, trace, i).store, trace[i].op, trace[i].lead);
  }

  /** A position moves only by calls of its own thread. */
  lemma {:induction false} PositionStays(n: Slots, start: Serial, trace: seq<Event>, t: nat, i: nat, j: nat)
    requires Ran(n, start, trace) && i <= j <= |trace| && t < |start.positions|
    requires forall e :: i <= e < j ==> trace[e].who != t
    ensures Moment(n, start, trace, j).positions[t] == Moment(n, start, trace, i).positions[t]
    decreases j
  {
    if i < j {
      PositionStays(n, start, trace, t, i, j - 1);
      MomentNext(n, start, trace, j - 1);
    }
  }

  // ----- reads of one thread

  /** Reads of thread `t`, with no other call of it in between. */
  ghost predicate ReadsOf(trace: seq<Event>, t: nat, es: seq<nat>) {
    && es != []
    && (forall j :: 0 <= j < |es| ==> es[j] < |trace| && trace[es[j]].who == t && trace[es[j]].op.ReadOp?)
    && forall j :: 0 <= j < |es| - 1 ==> NextRead(trace, t, es, j)
  }

  ghost predicate NextRead(trace: seq<Event>, t: nat, es: seq<nat>, j: nat)
    requires j + 1 < |es|
  {
    Successive(trace, t, es[j], es[j + 1])
  }

  ghost predicate Successive(trace: seq<Event>, t: nat, e: nat, e': nat) {
    e < e' <= |trace| && forall i :: e < i < e' ==> trace[i].who != t
  }

  ghost function LogAt(n: Slots, start: Serial, trace: seq<Event>, e: nat): Log
    requires InRange(trace, |start.positions|) && e <= |trace|
  {
    Moment(n, start, trace, e).store.log
  }

  /** What read `e` returned, and where that stands in the stream. */
  ghost function PieceAt(n: Slots, start: Serial, trace: seq<Event>, e: nat): Piece
    requires InRange(trace, |start.positions|) && e < |trace|
  {
    Piece(|Evicted(LogAt(n, start, trace, e), n)| + U64(Moment(n, start, trace, e).positions[trace[e].who]),
          trace[e].answer.data)
  }

  ghost function PiecesOf(n: Slots, start: Serial, trace: seq<Event>, es: seq<nat>): (ps: seq<Piece>)
    requires InRange(trace, |start.positions|) && forall j :: 0 <= j < |es| ==> es[j] < |trace|
    ensures |ps| == |es| && forall j :: 0 <= j < |es| ==> ps[j] == PieceAt(n, start, trace, es[j])
  {
    seq(|es|, j requires 0 <= j < |es| => PieceAt(n, start, trace, es[j]))
  }

  lemma {:induction false} ReadAdvances(n: Slots, s: Store, pos: Loff, op: Op)
    requires op.ReadOp? && Sized(s.log)
    ensures U64(AnswerTo(n, s, pos, op).pos) == U64(pos) + |AnswerTo(n, s, pos, op).data|
  {
    var found := ReadAt(Recent(s.log.committed, n), U64(pos), op.count);
    VisibleFits(s.log, n);
    ReadIsSlice(Recent(s.log.committed, n), U64(pos), op.count);
    MovesOn(pos, op.k.Copied(|found|), |Visible(s.log, n)|);
    MovesOn(pos, 0, |Visible(s.log, n)|);
  }

  lemma {:induction false} NothingAhead(n: Slots, s: Store, pos: Loff, op: Op)
    requires op.ReadOp? && Clean(op.k) && op.count > 0 && AnswerTo(n, s, pos, op).data == []
    ensures |Visible(s.log, n)| <= U64(pos)
  {
    ReadIsSlice(Recent(s.log.committed, n), U64(pos), op.count);
  }

  lemma {:induction false} MovesOn(pos: Loff, got: nat, size: nat)
    requires size < TWO_63 && (got > 0 ==> U64(pos) + got <= size)
    ensures U64(S64(pos + got)) == U64(pos) + got
  {
  }

  /** The second of two successive reads starts behind the first and the bytes pushed out in between. */
  lemma {:induction false} SecondRead(n: Slots, start: Serial, trace: seq<Event>, t: nat, e: nat, e': nat)
    requires Ran(n, start, trace) && e < e' < |trace| && Successive(trace, t, e, e')
    requires trace[e].who == trace[e'].who == t && trace[e].op.ReadOp?
    ensures var lost := Lost(LogAt(n, start, trace, e), LogAt(n, start, trace, e'), n);
            lost >= 0 && PieceAt(n, start, trace, e').at == PieceAt(n, start, trace, e).End() + lost
  {
    var st := Moment(n, start, trace, e);
    MomentGives(n, start, trace, e);
    MomentNext(n, start, trace, e);
    MomentSound(n, start, trace, e);
    MomentSound(n, start, trace, e');
    ReadAdvances(n, st.store, st.positions[t], trace[e].op);
    PositionStays(n, start, trace, t, e + 1, e');
    MomentGrows(n, start, trace, e, e');
    LostExact(LogAt(n, start, trace, e), LogAt(n, start, trace, e'), n);
  }

  ghost function LogsOf(n: Slots, start: Serial, trace: seq<Event>, es: seq<nat>): (logs: seq<Log>)
    requires InRange(trace, |start.positions|) && forall j :: 0 <= j < |es| ==> es[j] < |trace|
    ensures |logs| == |es| && forall j :: 0 <= j < |es| ==> logs[j] == LogAt(n, start, trace, es[j])
  {
    seq(|es|, j requires 0 <= j < |es| => LogAt(n, start, trace, es[j]))
  }

  lemma {:induction false} EarlierRead(trace: seq<Event>, t: nat, es: seq<nat>, i: nat, j: nat)
    requires ReadsOf(trace, t, es) && i <= j < |es|
    ensures es[i] <= es[j]
    decreases j
  {
    if i < j {
      EarlierRead(trace, t, es, i, j - 1);
      assert NextRead(trace, t, es, j - 1);
    }
  }

  lemma {:induction false} LogsInTurn(n: Slots, start: Serial, trace: seq<Event>, t: nat, es: seq<nat>)
    requires Ran(n, start, trace) && ReadsOf(trace, t, es)
    ensures InTurn(LogsOf(n, start, trace, es))
  {
    var logs := LogsOf(n, start, trace, es);
    forall i | 0 <= i < |logs|
      ensures Settled(logs[i])
    {
      MomentSound(n, start, trace, es[i]);
    }
    forall i, j | 0 <= i < j < |logs|
      ensures Before(logs, i, j)
    {
      EarlierRead(trace, t, es, i, j);
      MomentGrows(n, start, trace, es[i], es[j]);
    }
  }

  lemma {:induction false} PieceInStream(n: Slots, start: Serial, trace: seq<Event>, e: nat)
    requires Ran(n, start, trace) && e < |trace| && trace[e].op.ReadOp?
    ensures InStream(LogAt(n, start, trace, e), PieceAt(n, start, trace, e))
  {
    MomentGives(n, start, trace, e);
    ReadEventIsSlice(n, Moment(n, start, trace, e), trace[e]);
  }

  /** Whatever other threads do in between, the reads of one thread keep track of one stream. */
  lemma {:induction false} ReadsTrack(n: Slots, start: Serial, trace: seq<Event>, t: nat, es: seq<nat>)
    requires Ran(n, start, trace) && ReadsOf(trace, t, es)
    ensures Tracks(LogsOf(n, start, trace, es), n, PiecesOf(n, start, trace, es))
  {
    var logs, ps := LogsOf(n, start, trace, es), PiecesOf(n, start, trace, es);
    LogsInTurn(n, start, trace, t, es);
    forall j | 0 <= j < |ps|
      ensures InStream(logs[j], ps[j])
    {
      PieceInStream(n, start, trace, es[j]);
    }
    forall j | 0 <= j < |ps| - 1
      ensures Continues(logs, n, ps, j)
    {
      assert NextRead(trace, t, es, j);
      SecondRead(n, start, trace, t, es[j], es[j + 1]);
    }
  }

  // ----- replies

  /** Reading goes on until an undisturbed read returns nothing. */
  ghost predicate ToTheEnd(trace: seq<Event>, es: seq<nat>)
    requires es != [] && es[|es| - 1] < |trace|
  {
    EndsWith(trace[es[|es| - 1]])
  }

  ghost predicate EndsWith(e: Event) {
    e.op.ReadOp? && Clean(e.op.k) && e.op.count > 0 && e.answer.data == []
  }

  lemma {:induction false} EndReached(n: Slots, start: Serial, trace: seq<Event>, t: nat, e: nat)
    requires Ran(n, start, trace) && e < |trace| && trace[e].who == t
    requires EndsWith(trace[e])
    ensures Size(LogAt(n, start, trace, e)) <= PieceAt(n, start, trace, e).at
  {
    var st := Moment(n, start, trace, e);
    MomentGives(n, start, trace, e);
    NothingAhead(n, st.store, st.positions[t], trace[e].op);
    FlattenParts(st.store.log, n);
  }

  lemma {:induction false} EndOfReads(n: Slots, start: Serial, trace: seq<Event>, t: nat, es: seq<nat>)
    requires Ran(n, start, trace) && ReadsOf(trace, t, es) && ToTheEnd(trace, es)
    ensures Ended(LogsOf(n, start, trace, es), PiecesOf(n, start, trace, es))
  {
    var e := es[|es| - 1];
    EndReached(n, start, trace, t, e);
    assert Last(LogsOf(n, start, trace, es)) == LogAt(n, start, trace, e);
    assert PiecesOf(n, start, trace, es)[|es| - 1] == PieceAt(n, start, trace, e);
  }

  lemma {:induction false} TrackedToTheEnd(n: Slots, start: Serial, trace: seq<Event>, t: nat, es: seq<nat>)
    requires Ran(n, start, trace) && ReadsOf(trace, t, es) && ToTheEnd(trace, es)
    ensures var logs, ps := LogsOf(n, start, trace, es), PiecesOf(n, start, trace, es);
            Tracks(logs, n, ps) && Ended(logs, ps)
  {
    ReadsTrack(n, start, trace, t, es);
    EndOfReads(n, start, trace, t, es);
  }

  /** A client reads from inside the file to its end while others write: its reply is all of the
      stream from its first read on exactly when nothing was pushed out since then. */
  lemma {:induction false} ReplyExact(n: Slots, start: Serial, trace: seq<Event>, t: nat, es: seq<nat>)
    requires Ran(n, start, trace) && ReadsOf(trace, t, es) && ToTheEnd(trace, es)
    requires PieceAt(n, start, trace, es[0]).at <= |Flatten(LogAt(n, start, trace, es[0]).committed)|
    ensures ReplyWhole(LogsOf(n, start, trace, es), n, PiecesOf(n, start, trace, es))
  {
    TrackedToTheEnd(n, start, trace, t, es);
    WholeUnlessLost(LogsOf(n, start, trace, es), n, PiecesOf(n, start, trace, es));
  }

  /** The command a whole write of a terminated packet made. */
  ghost predicate MakesCommand(e: Event) {
    && e.op.WriteOp? && NEWLINE in e.op.bytes && e.answer.r == Done(|e.op.bytes|)
  }

  lemma {:induction false} CommandMade(n: Slots, st: Serial, e: Event)
    requires e.who < |st.positions| && Gives(n, st, e) && MakesCommand(e)
    ensures After(n, st, e).store.log.committed == st.store.log.committed + [e.lead + e.op.bytes]
  {
    var i :| 0 <= i < |e.op.bytes| && e.op.bytes[i] == NEWLINE;
    assert Taken(st.store, e.op.bytes, e.op.k) == e.op.bytes;
    assert (e.lead + e.op.bytes)[|e.lead| + i] == NEWLINE;
  }

  lemma {:induction false} CommandStays(n: Slots, start: Serial, trace: seq<Event>, w: nat, e: nat)
    requires Ran(n, start, trace) && w < e <= |trace| && MakesCommand(trace[w])
    ensures var k, held := |LogAt(n, start, trace, w).committed|, LogAt(n, start, trace, e).committed;
            k < |held| && held[k] == trace[w].lead + trace[w].op.bytes
  {
    MomentGives(n, start, trace, w);
    MomentNext(n, start, trace, w);
    CommandMade(n, Moment(n, start, trace, w), trace[w]);
    MomentGrows(n, start, trace, w + 1, e);
  }

  /** A client that wrote a packet reads from the start to the end. Each byte of the command the
      packet completed is in its reply exactly when fewer than `n` commands came behind it before
      the first read, and the byte is not skipped; without a skipped byte the command stands in
      the reply in one piece. */
  lemma {:induction false} OwnPacket(n: Slots, start: Serial, trace: seq<Event>, t: nat, w: nat, es: seq<nat>)
    requires Ran(n, start, trace) && ReadsOf(trace, t, es) && ToTheEnd(trace, es)
    requires w < es[0] && MakesCommand(trace[w]) && Moment(n, start, trace, es[0]).positions[t] == 0
    ensures Fares(LogsOf(n, start, trace, es), n, PiecesOf(n, start, trace, es),
                  |LogAt(n, start, trace, w).committed|, trace[w].lead + trace[w].op.bytes)
  {
    var logs, ps := LogsOf(n, start, trace, es), PiecesOf(n, start, trace, es);
    CommandStays(n, start, trace, w, es[0]);
    TrackedToTheEnd(n, start, trace, t, es);
    CommandFares(logs, n, ps, |LogAt(n, start, trace, w).committed|);
  }

  /** Both, for any interleaving of threads. */
  lemma {:induction false} ReplyUnderLoad(n: Slots, run: seq<Sys>, i: nat, t: nat, w: nat, es: seq<nat>)
    requires Execution(n, run) && i < |run| && ReadsOf(run[i].trace, t, es) && ToTheEnd(run[i].trace, es)
    requires w < es[0] && MakesCommand(run[i].trace[w])
    ensures Ran(n, StartOf(run[0]), run[i].trace) && t < |run[0].clients|
    ensures var start, trace := StartOf(run[0]), run[i].trace;
            var logs, ps := LogsOf(n, start, trace, es), PiecesOf(n, start, trace, es);
            Moment(n, start, trace, es[0]).positions[t] == 0 ==>
              && Fares(logs, n, ps, |LogAt(n, start, trace, w).committed|, trace[w].lead + trace[w].op.bytes)
              && ReplyWhole(logs, n, ps)
  {
    InvAlways(n, run, i);
    var start, trace := StartOf(run[0]), run[i].trace;
    assert trace[es[0]].who == t;
    if Moment(n, start, trace, es[0]).positions[t] == 0 {
      OwnPacket(n, start, trace, t, w, es);
      FlattenParts(LogAt(n, start, trace, es[0]), n);
      ReplyExact(n, start, trace, t, es);
    }
  }
}
