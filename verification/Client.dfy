/** A program that reads the device to its end. */
module Client {
  import opened Machine
  import opened Sequences
  import opened CommandLog
  import opened Calls
  import opened Driver

  /** What lies ahead of a file position. */
  ghost function Ahead(file: seq<Byte>, pos: nat): seq<Byte> {
    if pos <= |file| then file[pos..] else []
  }

  /** One read: the next bytes ahead of the position, none only at the end or on failure. */
  method ReadOnce(dev: Device, filp: OpenFile, buf: array<Byte>, count: nat, k: Kernel) returns (got: nat)
    requires dev.Valid() && 0 < count <= buf.Length && buf !in dev.heap.live
    modifies filp, buf
    ensures dev.Valid()
    ensures got <= count && buf[..] == buf[..got] + old(buf[..])[got..]
    ensures filp.fPos == S64(old(filp.fPos) + got)
    ensures Delivers(dev.Commands(), U64(old(filp.fPos)), count, k, buf[..got])
  {
    var r := dev.Read(filp, buf, count, k);
    got := if r.Done? then r.count else 0;
    ghost var a := AnswerTo(dev.Capacity(), dev.Now(), old(filp.fPos), ReadOp(count, k));
    AnswerDelivers(dev.Capacity(), dev.Now(), old(filp.fPos), count, k);
    FrontOfBuffer(buf[..], a.data, old(buf[..])[got..]);
  }

  /** What the answer to a read means for the program that made it. */
  lemma {:induction false} AnswerDelivers(n: nat, s: Store, pos: Loff, count: nat, k: Kernel)
    requires n > 0 && count > 0
    ensures var a := AnswerTo(n, s, pos, ReadOp(count, k));
            && |a.data| == (if a.r.Done? then a.r.count else 0) && a.pos == S64(pos + |a.data|)
            && Delivers(Recent(s.log.committed, n), U64(pos), count, k, a.data)
  {
    ReadDelivers(Recent(s.log.committed, n), U64(pos), count, k);
    if k.interrupted {
      Interrupted(n, s, pos, ReadOp(count, k), []);
    } else {
      ReadAnswered(n, s, pos, count, k, k.Copied(|ReadAt(Recent(s.log.committed, n), U64(pos), count)|));
    }
  }

  lemma {:induction false} FrontOfBuffer(buf: seq<Byte>, data: seq<Byte>, rest: seq<Byte>)
    requires buf == data + rest
    ensures buf[..|data|] == data
  {
  }

  /** What a read under `k` can deliver: the next bytes, none of them only at the end or
      when disturbed; undisturbed, all that the command at the position and `count` allow. */
  ghost predicate Delivers(cmds: seq<seq<Byte>>, pos: nat, count: nat, k: Kernel, data: seq<Byte>) {
    && data <= Ahead(Flatten(cmds), pos)
    && (Clean(k) && data == [] ==> Ahead(Flatten(cmds), pos) == [])
    && (Clean(k) ==> data == ReadAt(cmds, pos, count))
  }

  lemma {:induction false} ReadDelivers(cmds: seq<seq<Byte>>, pos: nat, count: nat, k: Kernel)
    requires count > 0
    ensures var r := ReadAt(cmds, pos, count);
            Delivers(cmds, pos, count, k, if k.interrupted then [] else r[..k.Copied(|r|)])
  {
    ReadIsSlice(cmds, pos, count);
    var r := ReadAt(cmds, pos, count);
    if r != [] {
      SliceAtIsSlice(Flatten(cmds), pos, r);
      assert r <= Ahead(Flatten(cmds), pos);
    }
  }

  /** Reads with any positive counts until a read returns nothing or fails. `env` is what
      the kernel does in each read. */
  method ReadToEnd(dev: Device, filp: OpenFile, counts: nat -> nat, env: nat -> Kernel) returns (transcript: seq<Byte>)
    requires dev.Valid() && forall i :: counts(i) > 0
    modifies filp
    ensures dev.Valid()
    ensures Answers(transcript, Visible(dev.log, dev.Capacity()), U64(old(filp.fPos)), env)
    ensures filp.fPos == S64(old(filp.fPos) + |transcript|)
  {
    transcript := [];
    ghost var cmds, from := dev.Commands(), filp.fPos;
    dev.SizesAreLengths();
    var round := 0;
    while true
      invariant dev.Valid() && dev.Commands() == cmds
      invariant Reached(cmds, from, transcript, filp.fPos)
      decreases |Flatten(cmds)| - |transcript|
    {
      var data := ReadMore(dev, filp, counts(round), env(round), from, transcript);
      transcript := transcript + data;
      if data == [] {
        ReadingEnds(cmds, from, transcript, filp.fPos, env, round);
        return;
      }
      round := round + 1;
    }
  }

  /** One round: a read into a buffer of its own. */
  method ReadMore(dev: Device, filp: OpenFile, count: nat, k: Kernel, ghost from: Loff, ghost got: seq<Byte>)
    returns (data: seq<Byte>)
    requires dev.Valid() && count > 0
    requires Reached(dev.Commands(), from, got, filp.fPos)
    modifies filp
    ensures dev.Valid()
    ensures Reached(dev.Commands(), from, got + data, filp.fPos)
    ensures Clean(k) && data == [] ==> got + data == Ahead(Flatten(dev.Commands()), U64(from))
  {
    var buf := new Byte[count];
    var n := ReadOnce(dev, filp, buf, count, k);
    data := buf[..n];
    ReadOn(dev.Commands(), from, got, count, k, data);
  }

  /** From position `from` the bytes `got` have been read, and the position is now `pos`. */
  ghost predicate Reached(cmds: seq<seq<Byte>>, from: Loff, got: seq<Byte>, pos: Loff) {
    && |got| <= |Flatten(cmds)| < TWO_63
    && got <= Ahead(Flatten(cmds), U64(from))
    && pos == S64(from + |got|)
  }

  /** The bytes read are those of the file from `pos` on; all of them when no read was disturbed. */
  ghost predicate Answers(transcript: seq<Byte>, file: seq<Byte>, pos: nat, env: nat -> Kernel) {
    && transcript <= Ahead(file, pos)
    && ((forall i :: Clean(env(i))) ==> transcript == Ahead(file, pos))
  }

  lemma {:induction false} ReadingEnds(cmds: seq<seq<Byte>>, from: Loff, got: seq<Byte>, pos: Loff, env: nat -> Kernel, round: nat)
    requires Reached(cmds, from, got, pos)
    requires Clean(env(round)) ==> got == Ahead(Flatten(cmds), U64(from))
    ensures Answers(got, Flatten(cmds), U64(from), env) && pos == S64(from + |got|)
  {
  }

  /** One round of a reading loop. */
  lemma {:induction false} ReadOn(cmds: seq<seq<Byte>>, from: Loff, got: seq<Byte>, count: nat, k: Kernel, data: seq<Byte>)
    requires Reached(cmds, from, got, S64(from + |got|))
    requires Delivers(cmds, U64(S64(from + |got|)), count, k, data)
    ensures Reached(cmds, from, got + data, S64(S64(from + |got|) + |data|))
    ensures Clean(k) && data == [] ==> got == Ahead(Flatten(cmds), U64(from))
  {
    AheadOf(Flatten(cmds), from, got);
    GrowsBy(Flatten(cmds), from, got, data);
  }

  /** Having read `got`, what lies ahead is what lay ahead at first, without `got`. */
  lemma {:induction false} AheadOf(file: seq<Byte>, from: Loff, got: seq<Byte>)
    requires |file| < TWO_63 && got <= Ahead(file, U64(from))
    ensures Ahead(file, U64(S64(from + |got|))) == Ahead(file, U64(from))[|got|..]
  {
    Advance(from, |got|, |file|);
  }

  lemma {:induction false} GrowsBy(file: seq<Byte>, from: Loff, got: seq<Byte>, data: seq<Byte>)
    requires got <= Ahead(file, U64(from))
    requires data <= Ahead(file, U64(from))[|got|..]
    ensures got + data <= Ahead(file, U64(from))
    ensures S64(S64(from + |got|) + |data|) == S64(from + |got + data|)
  {
    S64Twice(from + |got|, |data|);
  }

  /** While bytes have been read the unsigned position is the starting one plus their number. */
  lemma {:induction false} Advance(from: Loff, got: nat, total: nat)
    requires total < TWO_63
    requires if U64(from) <= total then U64(from) + got <= total else got == 0
    ensures U64(S64(from + got)) == U64(from) + got
  {
  }
}
