/** What the device means: a list of committed commands and a pending, unterminated tail. */
module CommandLog {
  import opened Machine
  import opened Sequences
  import opened Lookup

  datatype Log = Log(committed: seq<seq<Byte>>, pending: seq<Byte>)

  const EMPTY := Log([], [])

  ghost predicate Settled(l: Log) {
    && NEWLINE !in l.pending
    && forall i :: 0 <= i < |l.committed| ==> NEWLINE in l.committed[i]
  }

  /** One write: the bytes join the pending tail; a newline anywhere in it commits all of it. */
  function Append(l: Log, bytes: seq<Byte>): (r: Log)
    ensures Settled(l) ==> Settled(r)
  {
    var tail := l.pending + bytes;
    if NEWLINE in tail then Log(l.committed + [tail], []) else Log(l.committed, tail)
  }

  /** A run of writes. */
  function AppendAll(l: Log, chunks: seq<seq<Byte>>): (r: Log)
    ensures Settled(l) ==> Settled(r)
    decreases chunks
  {
    if chunks == [] then l else AppendAll(Append(l, chunks[0]), chunks[1..])
  }

  lemma {:induction false} AppendAllConcat(l: Log, a: seq<seq<Byte>>, b: seq<seq<Byte>>)
    ensures AppendAll(l, a + b) == AppendAll(AppendAll(l, a), b)
    decreases a
  {
    if a == [] {
      assert a + b == b;
    } else {
      assert (a + b)[1..] == a[1..] + b;
      AppendAllConcat(Append(l, a[0]), a[1..], b);
    }
  }

  // ----- conservation

  /** Everything the device ever took in, in order. */
  function Stream(l: Log): seq<Byte> {
    Flatten(l.committed) + l.pending
  }

  function Visible(l: Log, n: nat): seq<Byte> {
    Flatten(Recent(l.committed, n))
  }

  function Evicted(l: Log, n: nat): seq<Byte> {
    Flatten(Older(l.committed, n))
  }

  lemma {:induction false} AppendConserves(l: Log, bytes: seq<Byte>)
    ensures Stream(Append(l, bytes)) == Stream(l) + bytes
  {
    var tail := l.pending + bytes;
    if NEWLINE in tail {
      FlattenAppend(l.committed, [tail]);
      FlattenOne(tail);
    }
  }

  lemma {:induction false} AppendAllConserves(l: Log, chunks: seq<seq<Byte>>)
    ensures Stream(AppendAll(l, chunks)) == Stream(l) + Flatten(chunks)
    decreases chunks
  {
    if chunks != [] {
      AppendConserves(l, chunks[0]);
      AppendAllConserves(Append(l, chunks[0]), chunks[1..]);
    }
  }

  /** No byte is lost, duplicated or reordered: after any run of writes the evicted, the
      visible and the pending bytes are, end to end, the bytes written. */
  lemma {:induction false} StreamConservation(chunks: seq<seq<Byte>>, n: nat)
    ensures var l := AppendAll(EMPTY, chunks);
            Evicted(l, n) + Visible(l, n) + l.pending == Flatten(chunks)
  {
    var l := AppendAll(EMPTY, chunks);
    AppendAllConserves(EMPTY, chunks);
    StreamParts(l, n);
    assert Stream(EMPTY) == [];
    assert Stream(l) == Flatten(chunks);
  }

  lemma {:induction false} StreamParts(l: Log, n: nat)
    ensures Evicted(l, n) + Visible(l, n) + l.pending == Stream(l)
  {
    FlattenParts(l, n);
  }

  // ----- splitting a write

  /** Writing `a` then `b` equals writing `a + b` exactly when `a` does not commit, or `b` is empty. */
  lemma {:induction false} SplitWrite(l: Log, a: seq<Byte>, b: seq<Byte>)
    requires Settled(l)
    ensures Append(Append(l, a), b) == Append(l, a + b) <==> NEWLINE !in a || b == []
  {
    assert l.pending + (a + b) == l.pending + a + b;
    if NEWLINE !in a {
      assert NEWLINE !in l.pending + a;
    } else if b == [] {
      assert a + b == a;
    } else {
      var tail := l.pending + a;
      assert tail[|l.pending|..] == a;
      var whole := tail + b;
      assert NEWLINE in whole by {
        var i :| 0 <= i < |tail| && tail[i] == NEWLINE;
        assert whole[i] == NEWLINE;
      }
      assert Append(l, a + b).committed == l.committed + [whole];
      var split := Append(Append(l, a), b).committed;
      assert split[|l.committed|] == tail != whole;
    }
  }

  ghost predicate OnlyLastCommits(chunks: seq<seq<Byte>>) {
    forall i, j :: 0 <= i < j < |chunks| && NEWLINE in chunks[i] ==> chunks[j] == []
  }

  lemma {:induction false} FlattenEmpty(ss: seq<seq<Byte>>)
    ensures Flatten(ss) == [] <==> forall i :: 0 <= i < |ss| ==> ss[i] == []
  {
    if ss != [] {
      FlattenEmpty(ss[1..]);
      if Flatten(ss) == [] {
        assert ss[0] == [] && Flatten(ss[1..]) == [];
        forall i | 0 <= i < |ss| ensures ss[i] == [] {
          if i > 0 { assert ss[i] == ss[1..][i - 1]; }
        }
      }
    }
  }

  /** Committing happens at most once per write, so the number of commands tells splittings apart. */
  lemma {:induction false} CommitsGrow(l: Log, chunks: seq<seq<Byte>>)
    ensures |l.committed| <= |AppendAll(l, chunks).committed|
    ensures l.committed <= AppendAll(l, chunks).committed
    decreases chunks
  {
    if chunks != [] {
      CommitsGrow(Append(l, chunks[0]), chunks[1..]);
    }
  }

  /** Any splitting of a write into pieces gives the same device exactly when nothing follows a newline's piece. */
  lemma {:induction false} SplitMany(l: Log, chunks: seq<seq<Byte>>)
    requires Settled(l)
    ensures AppendAll(l, chunks) == Append(l, Flatten(chunks)) <==> OnlyLastCommits(chunks)
    decreases chunks
  {
    if chunks == [] {
      assert l.pending + [] == l.pending;
    } else {
      var a, rest := chunks[0], chunks[1..];
      OnlyLastCommitsStep(chunks);
      FlattenEmpty(rest);
      if NEWLINE in a && Flatten(rest) != [] {
        EarlyCommit(l, a, rest);
      } else {
        SplitMany(Append(l, a), rest);
        SplitWrite(l, a, Flatten(rest));
      }
    }
  }

  /** A piece that commits before more bytes come leaves a shorter command than the whole write does. */
  lemma {:induction false} EarlyCommit(l: Log, a: seq<Byte>, rest: seq<seq<Byte>>)
    requires NEWLINE in a && Flatten(rest) != []
    ensures AppendAll(Append(l, a), rest) != Append(l, a + Flatten(rest))
  {
    var first, whole := l.pending + a, l.pending + (a + Flatten(rest));
    NewlineWithin(l.pending, a, []);
    NewlineWithin(l.pending, a, Flatten(rest));
    assert l.pending + a + [] == first && l.pending + a + Flatten(rest) == whole;
    CommitsGrow(Append(l, a), rest);
    assert Append(l, a).committed[|l.committed|] == first;
    assert AppendAll(Append(l, a), rest).committed[|l.committed|] == first;
    assert Append(l, a + Flatten(rest)).committed[|l.committed|] == whole;
  }

  lemma {:induction false} NewlineWithin(before: seq<Byte>, a: seq<Byte>, after: seq<Byte>)
    requires NEWLINE in a
    ensures NEWLINE in before + a + after
  {
    var i :| 0 <= i < |a| && a[i] == NEWLINE;
    assert (before + a + after)[|before| + i] == NEWLINE;
  }

  lemma {:induction false} OnlyLastCommitsStep(chunks: seq<seq<Byte>>)
    requires chunks != []
    ensures OnlyLastCommits(chunks) <==>
            && OnlyLastCommits(chunks[1..])
            && (NEWLINE in chunks[0] ==> forall j :: 0 <= j < |chunks[1..]| ==> chunks[1..][j] == [])
  {
    var rest := chunks[1..];
    if OnlyLastCommits(rest) && (NEWLINE in chunks[0] ==> forall j :: 0 <= j < |rest| ==> rest[j] == []) {
      forall i, j | 0 <= i < j < |chunks| && NEWLINE in chunks[i]
        ensures chunks[j] == []
      {
        assert chunks[j] == rest[j - 1];
        if i > 0 { assert chunks[i] == rest[i - 1]; }
      }
    }
    if OnlyLastCommits(chunks) {
      forall i, j | 0 <= i < j < |rest| && NEWLINE in rest[i]
        ensures rest[j] == []
      {
        assert rest[i] == chunks[i + 1] && rest[j] == chunks[j + 1];
      }
      forall j | 0 <= j < |rest| && NEWLINE in chunks[0]
        ensures rest[j] == []
      {
        assert rest[j] == chunks[j + 1];
      }
    }
  }

  // ----- whole packets

  ghost predicate AllTerminated(packets: seq<seq<Byte>>) {
    forall i :: 0 <= i < |packets| ==> NEWLINE in packets[i]
  }

  /** From no pending bytes, each packet becomes one command, whole and unmixed,
      exactly when every packet holds a newline. */
  lemma {:induction false} PacketsStayWhole(l: Log, packets: seq<seq<Byte>>)
    requires Settled(l) && l.pending == []
    ensures AppendAll(l, packets) == Log(l.committed + packets, []) <==> AllTerminated(packets)
    decreases packets
  {
    if packets == [] {
      assert l.committed + packets == l.committed;
    } else {
      var first, rest := packets[0], packets[1..];
      assert l.pending + first == first;
      var l' := Append(l, first);
      if NEWLINE in first {
        PacketsStayWhole(l', rest);
        assert l'.committed + rest == l.committed + packets;
        assert AllTerminated(packets) <==> AllTerminated(rest) by {
          assert packets == [first] + rest;
          forall i | 0 <= i < |rest| ensures rest[i] == packets[i + 1] {}
        }
      } else {
        CommitCount(l', rest);
      }
    }
  }

  /** A packet without a newline: it and the next become one command. */
  lemma {:induction false} PacketsJoined()
    ensures AppendAll(EMPTY, ["a", "b\n"]) == Log(["ab\n"], [])
  {
    var packets := ["a", "b\n"];
    assert packets[1..] == ["b\n"] && packets[1..][1..] == [];
    assert [] + "a" == "a" && "a" + "b\n" == "ab\n" && "ab\n"[2] == NEWLINE;
    assert Append(EMPTY, "a") == Log([], "a");
    assert Append(Log([], "a"), "b\n") == Log([] + ["ab\n"], []);
  }

  /** A run of writes commits at most as many commands as it has writes. */
  lemma {:induction false} CommitCount(l: Log, chunks: seq<seq<Byte>>)
    ensures |AppendAll(l, chunks).committed| <= |l.committed| + |chunks|
    decreases chunks
  {
    if chunks != [] {
      CommitCount(Append(l, chunks[0]), chunks[1..]);
    }
  }

  // ----- reading

  /** What a read takes from a place: no more than `count` bytes and none of the next command. */
  function BytesAt(cmds: seq<seq<Byte>>, place: Place, count: nat): (r: seq<Byte>)
    requires place.index < |cmds| && place.offset <= |cmds[place.index]|
    ensures |r| <= count && |r| <= |cmds[place.index]| - place.offset
  {
    var left := |cmds[place.index]| - place.offset;
    cmds[place.index][place.offset..place.offset + if count > left then left else count]
  }

  /** One read at flat position `pos`. */
  function ReadAt(cmds: seq<seq<Byte>>, pos: nat, count: nat): seq<Byte> {
    LocateSound(Lengths(cmds), pos);
    var place := Locate(Lengths(cmds), pos);
    if place.None? then [] else BytesAt(cmds, place.value, count)
  }

  /** The bytes of `r` are those of `s` from `at` on. */
  ghost predicate SliceAt(s: seq<Byte>, at: nat, r: seq<Byte>) {
    forall i {:trigger r[i]} :: 0 <= i < |r| ==> at + i < |s| && s[at + i] == r[i]
  }

  lemma {:induction false} SliceAtIsSlice(s: seq<Byte>, at: nat, r: seq<Byte>)
    requires r != []
    ensures SliceAt(s, at, r) <==> at + |r| <= |s| && s[at..at + |r|] == r
  {
    if SliceAt(s, at, r) {
      var last := |r| - 1;
      assert s[at + last] == r[last];
    }
    if at + |r| <= |s| && s[at..at + |r|] == r {
      forall i | 0 <= i < |r|
        ensures s[at + i] == r[i]
      {
        assert s[at..at + |r|][i] == r[i];
      }
    }
  }

  lemma {:induction false} SliceOfSuffix(a: seq<Byte>, b: seq<Byte>, at: nat, r: seq<Byte>)
    requires SliceAt(b, at, r)
    ensures SliceAt(a + b, |a| + at, r)
  {
  }

  lemma {:induction false} SliceOfLonger(a: seq<Byte>, b: seq<Byte>, at: nat, r: seq<Byte>)
    requires SliceAt(a, at, r) && a <= b
    ensures SliceAt(b, at, r)
  {
    if r != [] {
      SliceAtIsSlice(a, at, r);
      assert b[at..at + |r|] == b[..|a|][at..at + |r|];
      SliceAtIsSlice(b, at, r);
    }
  }

  lemma {:induction false} SliceOfFront(s: seq<Byte>, at: nat, r: seq<Byte>, m: nat)
    requires SliceAt(s, at, r) && m <= |r|
    ensures SliceAt(s, at, r[..m])
  {
    if m > 0 {
      SliceAtIsSlice(s, at, r);
      assert s[at..at + m] == s[at..at + |r|][..m];
      SliceAtIsSlice(s, at, r[..m]);
    }
  }

  /** A read returns a slice of the concatenation at `pos`, empty only at the end or for no count. */
  lemma {:induction false} ReadIsSlice(cmds: seq<seq<Byte>>, pos: nat, count: nat)
    ensures var r := ReadAt(cmds, pos, count);
            && |r| <= count
            && (r == [] <==> count == 0 || |Flatten(cmds)| <= pos)
            && (r != [] ==> pos + |r| <= |Flatten(cmds)|) && SliceAt(Flatten(cmds), pos, r)
  {
    LocateSound(Lengths(cmds), pos);
    FlattenLength(cmds);
    var place := Locate(Lengths(cmds), pos);
    if place.Some? {
      BytesAtIsSlice(cmds, place.value, count);
    }
  }

  /** How much a read returns: from byte `offset` of command `index` on, `count` bytes or what is
      left of that command. */
  lemma {:induction false} ReadFromCommand(cmds: seq<seq<Byte>>, index: nat, offset: nat, count: nat)
    requires index < |cmds| && offset < |cmds[index]|
    ensures ReadAt(cmds, |Flatten(cmds[..index])| + offset, count) ==
            if count <= |cmds[index]| - offset then cmds[index][offset..offset + count] else cmds[index][offset..]
  {
    FlattenLength(cmds[..index]);
    assert Lengths(cmds[..index]) == Lengths(cmds)[..index];
    LocateExact(Lengths(cmds), |Flatten(cmds[..index])| + offset, Place(index, offset));
  }

  lemma {:induction false} BytesAtIsSlice(cmds: seq<seq<Byte>>, place: Place, count: nat)
    requires place.index < |cmds| && place.offset < |cmds[place.index]|
    ensures var r, pos := BytesAt(cmds, place, count), Sum(Lengths(cmds)[..place.index]) + place.offset;
            && (r == [] <==> count == 0)
            && pos + |r| <= |Flatten(cmds)| && SliceAt(Flatten(cmds), pos, r)
  {
    var r := BytesAt(cmds, place, count);
    FlattenSlice(cmds, place.index, place.offset, place.offset + |r|);
    if r != [] {
      SliceAtIsSlice(Flatten(cmds), Sum(Lengths(cmds)[..place.index]) + place.offset, r);
    }
  }

  /** What reads with these counts return, one after the other, each moving the position on. */
  function ReadRun(cmds: seq<seq<Byte>>, pos: nat, counts: seq<nat>): (rs: seq<seq<Byte>>)
    ensures |rs| == |counts|
    decreases counts
  {
    if counts == [] then []
    else
      var r := ReadAt(cmds, pos, counts[0]);
      [r] + ReadRun(cmds, pos + |r|, counts[1..])
  }

  /** Reading on and on from `pos` with positive counts gives the bytes from `pos` on, in
      order, without gap or repetition; as many reads as there are bytes left give all of them. */
  lemma {:induction false} ReadRunComplete(cmds: seq<seq<Byte>>, pos: nat, counts: seq<nat>)
    requires pos <= |Flatten(cmds)|
    requires forall i :: 0 <= i < |counts| ==> counts[i] > 0
    ensures var got, left := Flatten(ReadRun(cmds, pos, counts)), Flatten(cmds)[pos..];
            got <= left && (|counts| >= |left| ==> got == left)
    decreases counts
  {
    if counts != [] {
      var r := ReadAt(cmds, pos, counts[0]);
      var rest := ReadRun(cmds, pos + |r|, counts[1..]);
      ReadIsSlice(cmds, pos, counts[0]);
      ReadRunComplete(cmds, pos + |r|, counts[1..]);
      FlattenCons(r, rest);
      assert ReadRun(cmds, pos, counts) == [r] + rest;
      PrefixJoin(Flatten(cmds), pos, r, Flatten(rest));
    }
  }

  lemma {:induction false} FlattenCons(r: seq<Byte>, rest: seq<seq<Byte>>)
    ensures Flatten([r] + rest) == r + Flatten(rest)
  {
    FlattenAppend([r], rest);
    FlattenOne(r);
  }

  lemma {:induction false} PrefixJoin(s: seq<Byte>, pos: nat, r: seq<Byte>, rest: seq<Byte>)
    requires pos + |r| <= |s| && SliceAt(s, pos, r)
    requires rest <= s[pos + |r|..]
    ensures r + rest <= s[pos..]
    ensures |rest| == |s[pos + |r|..]| ==> r + rest == s[pos..]
  {
  }

  /** After as many reads as there were bytes left, every further read returns nothing. */
  lemma {:induction false} ReadRunEnds(cmds: seq<seq<Byte>>, pos: nat, counts: seq<nat>, i: nat)
    requires pos <= |Flatten(cmds)|
    requires forall i :: 0 <= i < |counts| ==> counts[i] > 0
    requires |Flatten(cmds)| - pos <= i < |counts|
    ensures ReadRun(cmds, pos, counts)[i] == []
    decreases counts
  {
    var r := ReadAt(cmds, pos, counts[0]);
    ReadIsSlice(cmds, pos, counts[0]);
    assert ReadRun(cmds, pos, counts) == [r] + ReadRun(cmds, pos + |r|, counts[1..]);
    if i > 0 {
      ReadRunEnds(cmds, pos + |r|, counts[1..], i - 1);
    }
  }

  lemma {:induction false} FlattenParts(l: Log, n: nat)
    ensures Flatten(l.committed) == Evicted(l, n) + Visible(l, n)
  {
    OlderRecent(l.committed, n);
    FlattenAppend(Older(l.committed, n), Recent(l.committed, n));
  }

  /** Every read is a slice of the stream of committed bytes, at evicted count plus position. */
  lemma {:induction false} ReadIsStreamSlice(l: Log, n: nat, pos: nat, count: nat)
    ensures SliceAt(Flatten(l.committed), |Evicted(l, n)| + pos, ReadAt(Recent(l.committed, n), pos, count))
  {
    ReadIsSlice(Recent(l.committed, n), pos, count);
    FlattenParts(l, n);
    SliceOfSuffix(Evicted(l, n), Visible(l, n), pos, ReadAt(Recent(l.committed, n), pos, count));
  }

  /** The same, in the stream of a later state. */
  lemma {:induction false} ReadIsLaterStreamSlice(l: Log, later: Log, n: nat, pos: nat, count: nat)
    requires l.committed <= later.committed
    ensures SliceAt(Flatten(later.committed), |Evicted(l, n)| + pos, ReadAt(Recent(l.committed, n), pos, count))
  {
    ReadIsStreamSlice(l, n, pos, count);
    FlattenPrefix(l.committed, later.committed);
    SliceOfLonger(Flatten(l.committed), Flatten(later.committed), |Evicted(l, n)| + pos,
                  ReadAt(Recent(l.committed, n), pos, count));
  }

  lemma {:induction false} FlattenPrefix(a: seq<seq<Byte>>, b: seq<seq<Byte>>)
    requires a <= b
    ensures Flatten(a) <= Flatten(b)
    ensures (forall i :: 0 <= i < |b| ==> b[i] != []) && |Flatten(a)| == |Flatten(b)| ==> a == b
  {
    var more := b[|a|..];
    assert b == a + more;
    FlattenAppend(a, more);
    if more != [] {
      assert more[0] == b[|a|];
    }
  }

  /** How many bytes are pushed out on the way to a later state. */
  ghost function Lost(l: Log, later: Log, n: nat): int {
    |Evicted(later, n)| - |Evicted(l, n)|
  }

  /** Bytes are pushed out exactly when commands were added and there are then too many. */
  lemma {:induction false} LostExact(l: Log, later: Log, n: nat)
    requires Settled(later) && l.committed <= later.committed
    ensures Lost(l, later, n) >= 0
    ensures Lost(l, later, n) == 0 <==> |later.committed| <= n || |later.committed| == |l.committed|
  {
    var before, after := Older(l.committed, n), Older(later.committed, n);
    assert before <= after;
    forall i | 0 <= i < |after|
      ensures after[i] != []
    {
      assert after[i] == later.committed[i] && NEWLINE in later.committed[i];
    }
    FlattenPrefix(before, after);
    assert |before| == |after| ==> before == after;
    assert l.committed == later.committed[..|l.committed|];
  }

  /** Two reads of one file with writes between them: both are slices of the one stream, the
      second starting behind the first and the bytes the writes pushed out. So a reader
      misses bytes exactly when a command is pushed out between its reads. */
  lemma {:induction false} ReadsContinue(l: Log, later: Log, n: nat, pos: nat, count1: nat, count2: nat)
    requires Settled(later) && l.committed <= later.committed
    ensures var r1 := ReadAt(Recent(l.committed, n), pos, count1);
            var r2 := ReadAt(Recent(later.committed, n), pos + |r1|, count2);
            var stream, at, lost := Flatten(later.committed), |Evicted(l, n)| + pos, Lost(l, later, n);
            && lost >= 0
            && SliceAt(stream, at, r1) && SliceAt(stream, at + |r1| + lost, r2)
            && (lost == 0 <==> |later.committed| <= n || |later.committed| == |l.committed|)
  {
    var r1 := ReadAt(Recent(l.committed, n), pos, count1);
    var r2 := ReadAt(Recent(later.committed, n), pos + |r1|, count2);
    LostExact(l, later, n);
    ReadIsLaterStreamSlice(l, later, n, pos, count1);
    SecondSlice(l, later, n, pos + |r1|, r2, count2);
  }

  lemma {:induction false} SecondSlice(l: Log, later: Log, n: nat, pos: nat, r: seq<Byte>, count: nat)
    requires r == ReadAt(Recent(later.committed, n), pos, count) && Lost(l, later, n) >= 0
    ensures SliceAt(Flatten(later.committed), |Evicted(l, n)| + pos + Lost(l, later, n), r)
  {
    ReadIsStreamSlice(later, n, pos, count);
    assert |Evicted(later, n)| + pos == |Evicted(l, n)| + pos + Lost(l, later, n);
  }
}
