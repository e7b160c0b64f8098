/** A program that reads on while others write: what it gets of the stream, and what it misses. */
module Readers {
  import opened Machine
  import opened Sequences
  import opened Lookup
  import opened CommandLog

  /** What one read returned, and where in the stream of all committed bytes it stands. */
  datatype Piece = Piece(at: nat, data: seq<Byte>) {
    function End(): nat {
      at + |data|
    }
  }

  ghost predicate Stands(stream: seq<Byte>, p: Piece) {
    SliceAt(stream, p.at, p.data)
  }

  ghost predicate Onward(ps: seq<Piece>, i: nat)
    requires i + 1 < |ps|
  {
    ps[i].End() <= ps[i + 1].at
  }

  /** Successive reads, none going back. */
  ghost predicate Walks(stream: seq<Byte>, ps: seq<Piece>) {
    && (forall i {:trigger Stands(stream, ps[i])} :: 0 <= i < |ps| ==> Stands(stream, ps[i]))
    && (forall i :: 0 <= i < |ps| - 1 ==> Onward(ps, i))
  }

  ghost predicate Delivers(p: Piece, x: nat) {
    p.at <= x < p.End()
  }

  ghost predicate Skips(ps: seq<Piece>, i: int, x: nat) {
    0 <= i < |ps| - 1 && ps[i].End() <= x < ps[i + 1].at
  }

  /** Byte `x` of the stream was returned by a read. */
  ghost predicate Delivered(ps: seq<Piece>, x: nat) {
    exists i {:trigger Delivers(ps[i], x)} :: 0 <= i < |ps| && Delivers(ps[i], x)
  }

  /** Byte `x` came next for the reader, but moved on before its place between two reads. */
  ghost predicate Skipped(ps: seq<Piece>, x: nat) {
    exists i :: Skips(ps, i, x)
  }

  function Reply(ps: seq<Piece>): seq<Byte>
    decreases |ps|
  {
    if ps == [] then [] else ps[0].data + Reply(ps[1..])
  }

  lemma {:induction false} WalksRest(stream: seq<Byte>, ps: seq<Piece>)
    requires Walks(stream, ps) && |ps| > 1
    ensures Walks(stream, ps[1..]) && ps[0].End() <= ps[1].at
  {
    var rest := ps[1..];
    assert Onward(ps, 0);
    forall i | 0 <= i < |rest|
      ensures Stands(stream, rest[i])
    {
      assert Stands(stream, ps[i + 1]);
    }
    forall i | 0 <= i < |rest| - 1
      ensures Onward(rest, i)
    {
      assert Onward(ps, i + 1);
    }
  }

  /** Later reads start behind earlier ones. */
  lemma {:induction false} InOrder(stream: seq<Byte>, ps: seq<Piece>, i: nat, j: nat)
    requires Walks(stream, ps) && i < j < |ps|
    ensures ps[i].End() <= ps[j].at
    decreases j
  {
    assert Onward(ps, j - 1);
    if i + 1 < j {
      InOrder(stream, ps, i, j - 1);
    }
  }

  // ----- byte by byte

  /** Between the first and the last place every byte was either returned or skipped. */
  lemma {:induction false} DeliveredOrSkipped(stream: seq<Byte>, ps: seq<Piece>, x: nat)
    requires Walks(stream, ps) && ps != [] && ps[0].at <= x < ps[|ps| - 1].at
    ensures Delivered(ps, x) <==> !Skipped(ps, x)
  {
    var i := FindPlace(stream, ps, x, |ps| - 1);
    if Delivered(ps, x) && Skipped(ps, x) {
      var d :| 0 <= d < |ps| && Delivers(ps[d], x);
      var k :| Skips(ps, k, x);
      if d <= k {
        if d < k {
          InOrder(stream, ps, d, k);
        }
      } else if k + 1 < d {
        InOrder(stream, ps, k + 1, d);
      }
    }
  }

  lemma {:induction false} FindPlace(stream: seq<Byte>, ps: seq<Piece>, x: nat, last: nat) returns (i: nat)
    requires Walks(stream, ps) && last < |ps| && ps[0].at <= x < ps[last].at
    ensures i < last && (Delivers(ps[i], x) || Skips(ps, i, x))
    decreases last
  {
    if ps[last - 1].at <= x {
      i := last - 1;
    } else {
      i := FindPlace(stream, ps, x, last - 1);
    }
  }

  // ----- pieces of the stream in the reply

  lemma {:induction false} DeliveredRest(stream: seq<Byte>, ps: seq<Piece>, x: nat)
    requires Walks(stream, ps) && Delivered(ps, x) && x >= ps[0].End()
    ensures |ps| > 1 && Delivered(ps[1..], x) && ps[1].at <= x
  {
    var i :| 0 <= i < |ps| && Delivers(ps[i], x);
    assert ps[1..][i - 1] == ps[i];
    if i > 1 {
      InOrder(stream, ps, 1, i);
    }
  }

  /** The reply starts with what was delivered without interruption from its start on. */
  lemma {:induction false} FrontArrives(stream: seq<Byte>, ps: seq<Piece>, end: nat)
    requires Walks(stream, ps) && ps != [] && ps[0].at <= end <= |stream|
    requires forall x :: ps[0].at <= x < end ==> Delivered(ps, x)
    ensures stream[ps[0].at..end] <= Reply(ps)
    decreases |ps|
  {
    var p, rest := ps[0], ps[1..];
    assert Stands(stream, p);
    if end <= p.End() {
      FrontOf(stream, p.at, p.data, end);
      assert p.data <= p.data + Reply(rest);
    } else {
      DeliveredRest(stream, ps, p.End());
      WalksRest(stream, ps);
      forall x | p.End() <= x < end
        ensures Delivered(rest, x)
      {
        DeliveredRest(stream, ps, x);
      }
      FrontArrives(stream, rest, end);
      JoinFront(stream, p.at, p.data, end, Reply(rest));
    }
  }

  lemma {:induction false} FrontOf(s: seq<Byte>, at: nat, r: seq<Byte>, end: nat)
    requires SliceAt(s, at, r) && at <= end <= at + |r| && end <= |s|
    ensures s[at..end] <= r
  {
    forall i | 0 <= i < end - at
      ensures s[at..end][i] == r[i]
    {
    }
  }

  lemma {:induction false} JoinFront(s: seq<Byte>, at: nat, r: seq<Byte>, end: nat, rest: seq<Byte>)
    requires SliceAt(s, at, r) && at + |r| <= end <= |s|
    requires s[at + |r|..end] <= rest
    ensures s[at..end] <= r + rest
  {
    FrontOf(s, at, r, at + |r|);
    assert s[at..end] == s[at..at + |r|] + s[at + |r|..end];
  }

  ghost predicate IsAt(part: seq<Byte>, whole: seq<Byte>, at: nat) {
    at + |part| <= |whole| && whole[at..at + |part|] == part
  }

  ghost predicate PartOf(part: seq<Byte>, whole: seq<Byte>) {
    exists at: nat :: IsAt(part, whole, at)
  }

  lemma {:induction false} PartOfTail(part: seq<Byte>, a: seq<Byte>, b: seq<Byte>)
    requires PartOf(part, b)
    ensures PartOf(part, a + b)
  {
    var at: nat :| IsAt(part, b, at);
    assert (a + b)[|a| + at..|a| + at + |part|] == b[at..at + |part|];
    assert IsAt(part, a + b, |a| + at);
  }

  lemma {:induction false} PartOfFront(s: seq<Byte>, at: nat, from: nat, end: nat, whole: seq<Byte>)
    requires at <= from <= end <= |s| && s[at..end] <= whole
    ensures PartOf(s[from..end], whole)
  {
    var part := s[from..end];
    assert whole[..end - at] == s[at..end];
    assert whole[from - at..end - at] == s[at..end][from - at..];
    assert IsAt(part, whole, from - at);
  }

  /** A part of the stream every byte of which is delivered stands in the reply in one piece. */
  lemma {:induction false} PartArrives(stream: seq<Byte>, ps: seq<Piece>, from: nat, end: nat)
    requires Walks(stream, ps) && ps != [] && ps[0].at <= from < end <= |stream|
    requires forall x :: from <= x < end ==> Delivered(ps, x)
    ensures PartOf(stream[from..end], Reply(ps))
    decreases |ps|
  {
    var p, rest := ps[0], ps[1..];
    if from < p.End() {
      forall x | p.at <= x < end
        ensures Delivered(ps, x)
      {
        assert x < from ==> Delivers(ps[0], x);
      }
      FrontArrives(stream, ps, end);
      PartOfFront(stream, p.at, from, end, Reply(ps));
    } else {
      DeliveredRest(stream, ps, from);
      WalksRest(stream, ps);
      forall x | from <= x < end
        ensures Delivered(rest, x)
      {
        DeliveredRest(stream, ps, x);
      }
      PartArrives(stream, rest, from, end);
      PartOfTail(stream[from..end], p.data, Reply(rest));
    }
  }

  // ----- the whole reply

  /** No reply is longer than what lay ahead. */
  lemma {:induction false} ReplyBounded(stream: seq<Byte>, ps: seq<Piece>)
    requires Walks(stream, ps) && ps != []
    ensures Reply(ps) == [] || ps[0].at + |Reply(ps)| <= |stream|
    decreases |ps|
  {
    assert Stands(stream, ps[0]);
    PieceInside(stream, ps[0]);
    if |ps| > 1 {
      WalksRest(stream, ps);
      ReplyBounded(stream, ps[1..]);
    } else {
      assert Reply(ps[1..]) == [];
    }
  }

  lemma {:induction false} PieceInside(stream: seq<Byte>, p: Piece)
    requires Stands(stream, p)
    ensures p.data == [] || p.End() <= |stream|
  {
    if p.data != [] {
      SliceAtIsSlice(stream, p.at, p.data);
    }
  }

  /** A skipped byte makes it shorter. */
  lemma {:induction false} SkippedShortens(stream: seq<Byte>, ps: seq<Piece>, x: nat)
    requires Walks(stream, ps) && ps != [] && Skipped(ps, x) && x < |stream|
    ensures ps[0].at <= x && ps[0].at + |Reply(ps)| < |stream|
    decreases |ps|
  {
    var i :| Skips(ps, i, x);
    var p, rest := ps[0], ps[1..];
    WalksRest(stream, ps);
    if i == 0 {
      ReplyBounded(stream, rest);
    } else {
      assert Skips(rest, i - 1, x);
      SkippedShortens(stream, rest, x);
    }
  }

  /** Reading on to the end gives all the stream from the first read on exactly when no byte of
      it is skipped. */
  lemma {:induction false} WholeUnlessSkipped(stream: seq<Byte>, ps: seq<Piece>)
    requires Walks(stream, ps) && ps != [] && ps[0].at <= |stream| <= ps[|ps| - 1].at
    ensures Reply(ps) == stream[ps[0].at..] <==> forall x: nat :: x < |stream| ==> !Skipped(ps, x)
  {
    if x: nat :| x < |stream| && Skipped(ps, x) {
      SkippedShortens(stream, ps, x);
    } else {
      forall x | ps[0].at <= x < |stream|
        ensures Delivered(ps, x)
      {
        DeliveredOrSkipped(stream, ps, x);
      }
      FrontArrives(stream, ps, |stream|);
      ReplyBounded(stream, ps);
      assert stream[ps[0].at..|stream|] == stream[ps[0].at..];
    }
  }

  // ----- reads of a changing device

  /** Contents of the device at successive moments. */
  ghost predicate InTurn(logs: seq<Log>) {
    && (forall i {:trigger Settled(logs[i])} :: 0 <= i < |logs| ==> Settled(logs[i]))
    && (forall i, j :: 0 <= i < j < |logs| ==> Before(logs, i, j))
  }

  ghost predicate Before(logs: seq<Log>, i: nat, j: nat)
    requires i < |logs| && j < |logs|
  {
    logs[i].committed <= logs[j].committed
  }

  ghost predicate InStream(l: Log, p: Piece) {
    Stands(Flatten(l.committed), p)
  }

  /** Read `i + 1` starts behind read `i` and the bytes pushed out in between. */
  ghost predicate Continues(logs: seq<Log>, n: nat, ps: seq<Piece>, i: nat)
    requires i + 1 < |logs| == |ps|
  {
    ps[i + 1].at == ps[i].End() + Lost(logs[i], logs[i + 1], n)
  }

  /** Read `i` was made of the contents `logs[i]`. */
  ghost predicate Tracks(logs: seq<Log>, n: nat, ps: seq<Piece>) {
    && |logs| == |ps| > 0 && InTurn(logs)
    && (forall i {:trigger InStream(logs[i], ps[i])} :: 0 <= i < |ps| ==> InStream(logs[i], ps[i]))
    && (forall i :: 0 <= i < |ps| - 1 ==> Continues(logs, n, ps, i))
  }

  ghost function Size(l: Log): nat {
    |Flatten(l.committed)|
  }

  /** The last of the contents read. */
  ghost function Last(logs: seq<Log>): Log
    requires logs != []
  {
    logs[|logs| - 1]
  }

  ghost predicate Ended(logs: seq<Log>, ps: seq<Piece>)
    requires |logs| == |ps| > 0
  {
    Size(Last(logs)) <= ps[|ps| - 1].at
  }

  /** Bytes are pushed out step by step, and only as commands come in. */
  lemma {:induction false} LostAdds(logs: seq<Log>, n: nat, i: nat, j: nat)
    requires InTurn(logs) && i <= j < |logs|
    ensures Lost(logs[i], logs[j], n) >= 0 && Size(logs[i]) <= Size(logs[j])
    ensures Lost(logs[i], logs[j], n) > 0 ==> Size(logs[i]) < Size(logs[j])
  {
    if i < j {
      assert Before(logs, i, j) && Settled(logs[j]);
      LostExact(logs[i], logs[j], n);
      CommandsTell(logs[i], logs[j]);
    }
  }

  lemma {:induction false} CommandsTell(l: Log, later: Log)
    requires l.committed <= later.committed && Settled(later)
    ensures Size(l) <= Size(later)
    ensures Size(l) == Size(later) ==> l.committed == later.committed
  {
    forall i | 0 <= i < |later.committed|
      ensures later.committed[i] != []
    {
      assert NEWLINE in later.committed[i];
    }
    FlattenPrefix(l.committed, later.committed);
  }

  lemma {:induction false} StillInStream(logs: seq<Log>, n: nat, ps: seq<Piece>, i: nat)
    requires Tracks(logs, n, ps) && i < |ps|
    ensures Stands(Flatten(Last(logs).committed), ps[i])
  {
    assert InStream(logs[i], ps[i]);
    assert i < |logs| - 1 ==> Before(logs, i, |logs| - 1);
    var now, later := Flatten(logs[i].committed), Flatten(Last(logs).committed);
    FlattenPrefix(logs[i].committed, Last(logs).committed);
    SliceOfLonger(now, later, ps[i].at, ps[i].data);
  }

  lemma {:induction false} TracksWalk(logs: seq<Log>, n: nat, ps: seq<Piece>)
    requires Tracks(logs, n, ps)
    ensures Walks(Flatten(Last(logs).committed), ps)
  {
    forall i | 0 <= i < |ps|
      ensures Stands(Flatten(Last(logs).committed), ps[i])
    {
      StillInStream(logs, n, ps, i);
    }
    forall i | 0 <= i < |ps| - 1
      ensures Onward(ps, i)
    {
      assert Continues(logs, n, ps, i);
      LostAdds(logs, n, i, i + 1);
    }
  }

  /** Until bytes are pushed out the reader stays inside the file. */
  lemma {:induction false} Inside(logs: seq<Log>, n: nat, ps: seq<Piece>, i: nat)
    requires Tracks(logs, n, ps) && i < |ps| && ps[0].at <= Size(logs[0])
    requires Lost(logs[0], logs[i], n) == 0
    ensures ps[i].End() <= Size(logs[i])
    decreases i
  {
    if i > 0 {
      assert Continues(logs, n, ps, i - 1);
      LostAdds(logs, n, 0, i - 1);
      LostAdds(logs, n, i - 1, i);
      Inside(logs, n, ps, i - 1);
    }
    assert InStream(logs[i], ps[i]);
    PieceInside(Flatten(logs[i].committed), ps[i]);
  }

  /** When bytes are pushed out a byte is skipped. */
  lemma {:induction false} FirstGap(logs: seq<Log>, n: nat, ps: seq<Piece>, i: nat) returns (x: nat)
    requires Tracks(logs, n, ps) && i < |ps| && ps[0].at <= Size(logs[0])
    requires Lost(logs[0], logs[i], n) != 0
    ensures Skipped(ps, x) && x < Size(logs[i])
    decreases i
  {
    LostAdds(logs, n, i - 1, i);
    if Lost(logs[0], logs[i - 1], n) == 0 {
      Inside(logs, n, ps, i - 1);
      assert Continues(logs, n, ps, i - 1);
      x := ps[i - 1].End();
      assert Skips(ps, i - 1, x);
    } else {
      x := FirstGap(logs, n, ps, i - 1);
    }
  }

  /** Otherwise none is. */
  lemma {:induction false} NoGap(logs: seq<Log>, n: nat, ps: seq<Piece>, x: nat)
    requires Tracks(logs, n, ps) && Lost(logs[0], Last(logs), n) == 0
    ensures !Skipped(ps, x)
  {
    if Skipped(ps, x) {
      var i :| Skips(ps, i, x);
      assert Continues(logs, n, ps, i);
      LostAdds(logs, n, 0, i);
      LostAdds(logs, n, i + 1, |logs| - 1);
    }
  }

  /** The reply is all of the stream from the first read on exactly when nothing was pushed out. */
  ghost predicate ReplyWhole(logs: seq<Log>, n: nat, ps: seq<Piece>)
    requires |logs| == |ps| > 0
  {
    var stream := Flatten(Last(logs).committed);
    && ps[0].at <= |stream|
    && (Reply(ps) == stream[ps[0].at..] <==> Lost(logs[0], Last(logs), n) == 0)
  }

  /** Reading from inside the file to the end. */
  lemma {:induction false} WholeUnlessLost(logs: seq<Log>, n: nat, ps: seq<Piece>)
    requires Tracks(logs, n, ps) && Ended(logs, ps) && ps[0].at <= Size(logs[0])
    ensures ReplyWhole(logs, n, ps)
  {
    var stream := Flatten(Last(logs).committed);
    TracksWalk(logs, n, ps);
    LostAdds(logs, n, 0, |logs| - 1);
    WholeUnlessSkipped(stream, ps);
    if Lost(logs[0], Last(logs), n) == 0 {
      forall x: nat | x < |stream|
        ensures !Skipped(ps, x)
      {
        NoGap(logs, n, ps, x);
      }
    } else {
      var x := FirstGap(logs, n, ps, |ps| - 1);
    }
  }

  // ----- the place of a command

  /** Where command `k` lies in the stream, now and later. */
  lemma {:induction false} CommandPlace(l: Log, later: Log, n: nat, k: nat)
    requires Settled(l) && l.committed <= later.committed && k < |l.committed| <= k + n
    ensures var from := |Flatten(l.committed[..k])|;
            && |Evicted(l, n)| <= from < from + |l.committed[k]| <= |Flatten(later.committed)|
            && Flatten(later.committed)[from..from + |l.committed[k]|] == l.committed[k]
  {
    var cmds := later.committed;
    assert cmds[..k] == l.committed[..k] && cmds[k] == l.committed[k];
    FlattenPrefix(Older(l.committed, n), l.committed[..k]);
    FlattenSlice(cmds, k, 0, |cmds[k]|);
    FlattenLength(cmds[..k]);
    assert Lengths(cmds[..k]) == Lengths(cmds)[..k];
    assert cmds[k][0..|cmds[k]|] == cmds[k];
    assert NEWLINE in l.committed[k];
  }

  /** How a command at `from` in the stream fares. */
  ghost predicate Arrival(ps: seq<Piece>, from: nat, command: seq<Byte>, visible: bool) {
    && (forall x :: from <= x < from + |command| ==> (Delivered(ps, x) <==> visible && !Skipped(ps, x)))
    && (visible && (forall x :: from <= x < from + |command| ==> !Skipped(ps, x)) ==> PartOf(command, Reply(ps)))
  }

  lemma {:induction false} CommandArrives(stream: seq<Byte>, ps: seq<Piece>, from: nat, command: seq<Byte>)
    requires Walks(stream, ps) && ps != [] && command != [] && ps[0].at <= from && from + |command| <= |stream|
    requires stream[from..from + |command|] == command && |stream| <= ps[|ps| - 1].at
    ensures Arrival(ps, from, command, true)
  {
    forall x | from <= x < from + |command|
      ensures Delivered(ps, x) <==> !Skipped(ps, x)
    {
      DeliveredOrSkipped(stream, ps, x);
    }
    if forall x :: from <= x < from + |command| ==> !Skipped(ps, x) {
      PartArrives(stream, ps, from, from + |command|);
    }
  }

  lemma {:induction false} EvictedCommand(l: Log, n: nat, k: nat)
    requires k + n < |l.committed|
    ensures |Flatten(l.committed[..k])| + |l.committed[k]| <= |Evicted(l, n)|
  {
    var upTo := l.committed[..k + 1];
    assert upTo == l.committed[..k] + [l.committed[k]];
    FlattenAppend(l.committed[..k], [l.committed[k]]);
    FlattenOne(l.committed[k]);
    FlattenPrefix(upTo, Older(l.committed, n));
  }

  lemma {:induction false} BeforeTheReader(stream: seq<Byte>, ps: seq<Piece>, x: nat)
    requires Walks(stream, ps) && ps != [] && x < ps[0].at
    ensures !Delivered(ps, x)
  {
    if Delivered(ps, x) {
      var i :| 0 <= i < |ps| && Delivers(ps[i], x);
      if i > 0 {
        InOrder(stream, ps, 0, i);
      }
    }
  }

  /** Command `k` is `command`, and this is how it fares when read from the start. */
  ghost predicate Fares(logs: seq<Log>, n: nat, ps: seq<Piece>, k: nat, command: seq<Byte>)
    requires logs != []
  {
    var held := logs[0].committed;
    && k < |held| && held[k] == command
    && Arrival(ps, |Flatten(held[..k])|, command, |held| <= k + n)
  }

  lemma {:induction false} CommandFares(logs: seq<Log>, n: nat, ps: seq<Piece>, k: nat)
    requires Tracks(logs, n, ps) && Ended(logs, ps) && ps[0].at == |Evicted(logs[0], n)|
    requires k < |logs[0].committed|
    ensures Fares(logs, n, ps, k, logs[0].committed[k])
  {
    var held, stream := logs[0].committed, Flatten(Last(logs).committed);
    TracksWalk(logs, n, ps);
    assert Settled(logs[0]) && (|logs| > 1 ==> Before(logs, 0, |logs| - 1));
    if |held| <= k + n {
      CommandPlace(logs[0], Last(logs), n, k);
      CommandArrives(stream, ps, |Flatten(held[..k])|, held[k]);
    } else {
      EvictedCommand(logs[0], n, k);
      forall x: nat | x < |Flatten(held[..k])| + |held[k]|
        ensures !Delivered(ps, x)
      {
        BeforeTheReader(stream, ps, x);
      }
    }
  }

  /** Two commands are held; another comes in after the first has been read. The second is
      still held when it is read, and yet the reply lacks it. */
  lemma {:induction false} CommandMissed()
    ensures var l := Log(["x\n", "ab\n"], []);
            var later := Append(l, "c\n");
            && Recent(l.committed, 2) == ["x\n", "ab\n"] && Recent(later.committed, 2) == ["ab\n", "c\n"]
            && ReadAt(["x\n", "ab\n"], 0, 9) == "x\n"
            && ReadAt(["ab\n", "c\n"], 2, 9) == "\n"
            && ReadAt(["ab\n", "c\n"], 3, 9) == "c\n" && ReadAt(["ab\n", "c\n"], 5, 9) == []
  {
    var l := Log(["x\n", "ab\n"], []);
    assert [] + "c\n" == "c\n" && "c\n"[1] == NEWLINE;
    var later := l.committed + ["c\n"];
    assert later == ["x\n", "ab\n", "c\n"];
    assert Recent(later, 2) == later[1..] == ["ab\n", "c\n"];
    assert Recent(l.committed, 2) == l.committed;
    ReadOfTwo("x\n", "ab\n", 0, 9);
    ReadOfTwo("ab\n", "c\n", 2, 9);
    ReadOfTwo("ab\n", "c\n", 3, 9);
    ReadOfTwo("ab\n", "c\n", 5, 9);
    assert "ab\n"[2..] == "\n";
    assert Append(l, "c\n").committed == later;
  }

  lemma {:induction false} ReadOfTwo(a: seq<Byte>, b: seq<Byte>, pos: nat, count: nat)
    requires |a| <= count && |b| <= count
    ensures ReadAt([a, b], pos, count) ==
            if pos < |a| then a[pos..] else if pos < |a| + |b| then b[pos - |a|..] else []
  {
    var sizes := Lengths([a, b]);
    assert [a, b][1..] == [b] && [b][1..] == [];
    assert Lengths([b]) == [|b|] && sizes == [|a|, |b|];
    assert sizes[..0] == [] && sizes[..1] == [|a|] && sizes[1..] == [|b|] && [|b|][1..] == [];
    assert [|a|][1..] == [] && Sum([|a|]) == |a| && Sum(sizes) == |a| + |b|;
    LocateSound(sizes, pos);
    if pos < |a| {
      LocateExact(sizes, pos, Place(0, pos));
    } else if pos < |a| + |b| {
      LocateExact(sizes, pos, Place(1, pos - |a|));
    }
  }
}
