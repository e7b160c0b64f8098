/** What one client connection of aesdsocket.c does with a complete packet. */
module Server {
  import opened Machine
  import opened Sequences
  import opened Lookup
  import opened CommandLog
  import opened Seek
  import opened KernelHeap
  import opened Calls
  import opened Driver
  import opened Client
  import opened SendBuffer
  import opened SeekCommand

  const BUFFER_SIZE: nat := 1024

  /** The connection ends with all bytes it read and all it sent, or the whole server exits. */
  datatype Reply = Reply(transcript: seq<Byte>, sent: seq<Byte>) | Exit

  /** The send buffer as memset leaves it. */
  function Cleared(): (b: seq<Byte>)
    ensures |b| == BUFFER_SIZE == 1024 && Marked(b, 0)
  {
    seq(BUFFER_SIZE, _ => NUL)
  }

  /** A reply read as `parts` from the position `pos` of `file`; `beyond` are the bytes behind
      the send buffer up to the next NUL. */
  ghost predicate Replied(transcript: seq<Byte>, sent: seq<Byte>, parts: seq<seq<Byte>>, beyond: seq<Byte>) {
    && Flatten(parts) == transcript && Fit(Cleared(), parts)
    && (forall i :: 0 <= i < |parts| ==> parts[i] != [])
    && sent == SentAll(Cleared(), parts, beyond)
  }

  ghost predicate Short(cmds: seq<seq<Byte>>) {
    forall i :: 0 <= i < |cmds| ==> 0 < |cmds[i]| <= BUFFER_SIZE
  }

  /** Undisturbed, reading short commands from the start gives one command a read. */
  ghost predicate CommandByCommand(cmds: seq<seq<Byte>>, from: Loff, env: nat -> Kernel) {
    from == 0 && Short(cmds) && forall i :: Clean(env(i))
  }

  /** The read-and-send loop. */
  method SendFile(dev: Device, filp: OpenFile, beyond: seq<Byte>, env: nat -> Kernel)
    returns (transcript: seq<Byte>, sent: seq<Byte>, ghost parts: seq<seq<Byte>>)
    requires dev.Valid()
    modifies filp
    ensures dev.Valid()
    ensures Answers(transcript, Visible(dev.log, dev.Capacity()), U64(old(filp.fPos)), env)
    ensures Replied(transcript, sent, parts, beyond)
    ensures CommandByCommand(dev.Commands(), old(filp.fPos), env) ==> parts == dev.Commands()
  {
    var sendBuffer := new Byte[BUFFER_SIZE](_ => NUL);
    transcript, sent, parts := [], [], [];
    ghost var cmds, from := dev.Commands(), filp.fPos;
    dev.SizesAreLengths();
    assert sendBuffer[..] == Cleared();
    var round := 0;
    while true
      invariant dev.Valid() && dev.Commands() == cmds && fresh(sendBuffer)
      invariant Underway(cmds, from, env, transcript, filp.fPos, sent, parts, beyond)
      invariant sendBuffer[..] == FilledBy(Cleared(), parts)
      decreases |Flatten(cmds)| - |transcript|
    {
      var data, more := Round(dev, filp, sendBuffer, env, round, beyond, from, transcript, parts, sent);
      if data == [] {
        return;
      }
      transcript, sent, parts := transcript + data, sent + more, parts + [data];
      round := round + 1;
    }
  }

  /** Where the loop stands: bytes read, position, bytes sent. */
  ghost predicate Underway(cmds: seq<seq<Byte>>, from: Loff, env: nat -> Kernel, got: seq<Byte>, pos: Loff,
                           sent: seq<Byte>, parts: seq<seq<Byte>>, beyond: seq<Byte>) {
    && Reached(cmds, from, got, pos) && Replied(got, sent, parts, beyond)
    && (CommandByCommand(cmds, from, env) ==> parts <= cmds)
  }

  /** One read and, if it returned anything, one send. */
  method Round(dev: Device, filp: OpenFile, sendBuffer: array<Byte>, env: nat -> Kernel, round: nat, beyond: seq<Byte>,
               ghost from: Loff, ghost got: seq<Byte>, ghost parts: seq<seq<Byte>>, ghost sent: seq<Byte>)
    returns (data: seq<Byte>, more: seq<Byte>)
    requires dev.Valid() && sendBuffer.Length == BUFFER_SIZE && sendBuffer !in dev.heap.live
    requires Underway(dev.Commands(), from, env, got, filp.fPos, sent, parts, beyond)
    requires sendBuffer[..] == FilledBy(Cleared(), parts)
    modifies filp, sendBuffer
    ensures dev.Valid()
    ensures data != [] ==>
              && Underway(dev.Commands(), from, env, got + data, filp.fPos, sent + more, parts + [data], beyond)
              && sendBuffer[..] == FilledBy(Cleared(), parts + [data])
    ensures data == [] ==>
              && filp.fPos == old(filp.fPos)
              && (Clean(env(round)) ==> got == Ahead(Flatten(dev.Commands()), U64(from)))
              && (CommandByCommand(dev.Commands(), from, env) ==> parts == dev.Commands())
  {
    var readResult := ReadOnce(dev, filp, sendBuffer, BUFFER_SIZE, env(round));
    data := sendBuffer[..readResult];
    RoundOn(dev.Commands(), from, env, round, got, sent, parts, beyond, data);
    more := [];
    if readResult > 0 {
      more := Sent(sendBuffer[..], beyond);
      assert sendBuffer[..] == Overlay(FilledBy(Cleared(), parts), data);
    }
  }

  lemma {:induction false} RoundOn(cmds: seq<seq<Byte>>, from: Loff, env: nat -> Kernel, round: nat, got: seq<Byte>,
                sent: seq<Byte>, parts: seq<seq<Byte>>, beyond: seq<Byte>, data: seq<Byte>)
    requires Underway(cmds, from, env, got, S64(from + |got|), sent, parts, beyond)
    requires Delivers(cmds, U64(S64(from + |got|)), BUFFER_SIZE, env(round), data) && |data| <= BUFFER_SIZE
    ensures data != [] ==>
              && Fit(Cleared(), parts + [data])
              && FilledBy(Cleared(), parts + [data]) == Overlay(FilledBy(Cleared(), parts), data)
              && Underway(cmds, from, env, got + data, S64(S64(from + |got|) + |data|),
                          sent + Sent(Overlay(FilledBy(Cleared(), parts), data), beyond), parts + [data], beyond)
    ensures data == [] ==>
              && (Clean(env(round)) ==> got == Ahead(Flatten(cmds), U64(from)))
              && (CommandByCommand(cmds, from, env) ==> parts == cmds)
  {
    ReadOn(cmds, from, got, BUFFER_SIZE, env(round), data);
    if data != [] {
      RepliedOn(got, sent, parts, beyond, data);
    }
    if CommandByCommand(cmds, from, env) {
      AtCommand(cmds, parts);
      assert Clean(env(round));
    }
  }

  lemma {:induction false} RepliedOn(got: seq<Byte>, sent: seq<Byte>, parts: seq<seq<Byte>>, beyond: seq<Byte>, data: seq<Byte>)
    requires Replied(got, sent, parts, beyond) && 0 < |data| <= BUFFER_SIZE
    ensures Fit(Cleared(), parts + [data])
    ensures FilledBy(Cleared(), parts + [data]) == Overlay(FilledBy(Cleared(), parts), data)
    ensures Replied(got + data, sent + Sent(Overlay(FilledBy(Cleared(), parts), data), beyond), parts + [data], beyond)
  {
    FlattenAppend(parts, [data]);
    FlattenOne(data);
    SentAllStep(Cleared(), parts, data, beyond);
  }

  /** A short command is returned whole by the read that starts at it. */
  lemma {:induction false} WholeCommand(cmds: seq<seq<Byte>>, i: nat)
    requires Short(cmds) && i <= |cmds|
    ensures ReadAt(cmds, |Flatten(cmds[..i])|, BUFFER_SIZE) == if i < |cmds| then cmds[i] else []
  {
    FlattenLength(cmds[..i]);
    assert Lengths(cmds[..i]) == Lengths(cmds)[..i];
    if i < |cmds| {
      LocateExact(Lengths(cmds), |Flatten(cmds[..i])|, Place(i, 0));
    } else {
      assert cmds[..i] == cmds && Lengths(cmds)[..i] == Lengths(cmds);
      LocateSound(Lengths(cmds), |Flatten(cmds[..i])|);
    }
  }

  lemma {:induction false} AtCommand(cmds: seq<seq<Byte>>, parts: seq<seq<Byte>>)
    requires Short(cmds) && parts <= cmds && |Flatten(parts)| <= |Flatten(cmds)| < TWO_63
    ensures ReadAt(cmds, U64(S64(0 + |Flatten(parts)|)), BUFFER_SIZE) ==
            if |parts| < |cmds| then cmds[|parts|] else []
    ensures |parts| < |cmds| ==> parts + [cmds[|parts|]] <= cmds
  {
    assert parts == cmds[..|parts|];
    WholeCommand(cmds, |parts|);
  }

  /** A printable file reaches the client as it was read exactly when no read was shorter than
      an earlier one and none filled the buffer. */
  lemma {:induction false} SentIsRead(transcript: seq<Byte>, sent: seq<Byte>, parts: seq<seq<Byte>>, beyond: seq<Byte>)
    requires Replied(transcript, sent, parts, beyond) && NUL !in transcript
    ensures sent == transcript <==> Growing(parts, 0, BUFFER_SIZE, beyond)
  {
    forall i | 0 <= i < |parts|
      ensures NUL !in parts[i]
    {
      FlattenSlice(parts, i, 0, |parts[i]|);
      assert parts[i][0..|parts[i]|] == parts[i];
    }
    SentExact(Cleared(), 0, parts, beyond);
  }

  /** Where a parsed request leads from position 0. */
  function Target(request: Option<SeekTo>, slots: seq<nat>, beyond: nat): Option<Loff> {
    match request
    case None => None
    case Some(q) => Coded(slots, beyond, 0, q.writeCmd, q.writeCmdOffset)
  }

  /** A seek request: parse, seek, and answer from there. Any failure ends the server. */
  method ServeSeek(dev: Device, filp: OpenFile, packet: seq<Byte>, address: nat, beyond: seq<Byte>, k: Kernel, env: nat -> Kernel)
    returns (reply: Reply, ghost parts: seq<seq<Byte>>)
    requires dev.Valid() && filp.fPos == 0 && PREFIX <= packet && BlockAddress(address)
    modifies filp
    ensures dev.Valid()
    ensures var target := Target(Parse(packet), dev.SlotSizes(), BehindTheSlots(dev.Now(), address));
            && (reply.Exit? <==> k.interrupted || target.None?)
            && (reply.Reply? ==> Answers(reply.transcript, Visible(dev.log, dev.Capacity()), U64(target.value), env))
    ensures reply.Reply? ==> Replied(reply.transcript, reply.sent, parts, beyond)
  {
    parts := [];
    var seekto := Parse(packet);
    if seekto.None? {
      return Exit, parts;
    }
    var result := dev.AdjustFileOffset(filp, seekto.value.writeCmd, seekto.value.writeCmdOffset, address, k);
    if result != Done(0) {
      return Exit, parts;
    }
    var transcript, sent;
    transcript, sent, parts := SendFile(dev, filp, beyond, env);
    reply := Reply(transcript, sent);
  }

  /** Any other packet: write it and answer with the whole file. Any failure ends the server. */
  method ServeWrite(dev: Device, filp: OpenFile, packet: seq<Byte>, beyond: seq<Byte>, k: Kernel, env: nat -> Kernel)
    returns (reply: Reply, ghost parts: seq<seq<Byte>>)
    requires dev.Valid() && filp.fPos == 0
    modifies filp, dev, dev.heap, dev.circleBuff, dev.circleBuff.entry, {dev.circleBuffEntry.buffptr} - {null}
    ensures dev.Valid()
    ensures reply.Exit? <==> !WriteResult(old(dev.Now()), packet, k).Done?
    ensures reply.Reply? && old(Intact(dev.Now())) ==>
              dev.log == Append(old(dev.log), Taken(old(dev.Now()), packet, k))
    ensures reply.Reply? ==>
              && Answers(reply.transcript, Visible(dev.log, dev.Capacity()), 0, env)
              && Replied(reply.transcript, reply.sent, parts, beyond)
              && (CommandByCommand(dev.Commands(), 0, env) ==> parts == dev.Commands())
  {
    parts := [];
    var lead := WritePacket(dev, filp, packet, k);
    if lead.None? {
      return Exit, parts;
    }
    var transcript, sent;
    transcript, sent, parts := SendFile(dev, filp, beyond, env);
    reply := Reply(transcript, sent);
  }

  /** The write itself. */
  method WritePacket(dev: Device, filp: OpenFile, packet: seq<Byte>, k: Kernel) returns (written: Option<nat>)
    requires dev.Valid()
    modifies dev, dev.heap, dev.circleBuff, dev.circleBuff.entry, {dev.circleBuffEntry.buffptr} - {null}
    ensures dev.Valid()
    ensures written.Some? <==> WriteResult(old(dev.Now()), packet, k).Done?
    ensures written.Some? && old(Intact(dev.Now())) ==>
              dev.log == Append(old(dev.log), Taken(old(dev.Now()), packet, k))
  {
    ghost var before := dev.Now();
    var writeResult, lead := dev.Write(filp, Some(packet), k);
    if Intact(before) {
      AfterWriteAppends(before, packet, k, lead);
    }
    written := if writeResult.Done? then Some(writeResult.count) else None;
  }

  /** From the open of the device to the close of the connection. */
  method ServePacket(dev: Device, filp: OpenFile, packet: seq<Byte>, address: nat, beyond: seq<Byte>,
                     k: Kernel, env: nat -> Kernel)
    returns (reply: Reply, ghost parts: seq<seq<Byte>>)
    requires dev.Valid() && filp.fPos == 0 && BlockAddress(address)
    modifies filp, dev, dev.heap, dev.circleBuff, dev.circleBuff.entry, {dev.circleBuffEntry.buffptr} - {null}
    ensures dev.Valid()
    ensures PREFIX <= packet ==>
              var target := Target(Parse(packet), old(dev.SlotSizes()), BehindTheSlots(old(dev.Now()), address));
              && dev.Now() == old(dev.Now())
              && (reply.Exit? <==> k.interrupted || target.None?)
              && (reply.Reply? ==> Answers(reply.transcript, Visible(dev.log, dev.Capacity()), U64(target.value), env))
    ensures !(PREFIX <= packet) ==>
              && (reply.Exit? <==> !WriteResult(old(dev.Now()), packet, k).Done?)
              && (reply.Reply? && old(Intact(dev.Now())) ==>
                    dev.log == Append(old(dev.log), Taken(old(dev.Now()), packet, k)))
              && (reply.Reply? ==> Answers(reply.transcript, Visible(dev.log, dev.Capacity()), 0, env))
    ensures reply.Reply? ==> Replied(reply.transcript, reply.sent, parts, beyond)
  {
    if PREFIX <= packet {
      reply, parts := ServeSeek(dev, filp, packet, address, beyond, k, env);
    } else {
      reply, parts := ServeWrite(dev, filp, packet, beyond, k, env);
    }
  }

  /** End to end: with the sizes in place, the printed request for byte `y` of command `x` is
      answered from that byte on, and refused exactly when there is no such byte. */
  method AskForByte(dev: Device, filp: OpenFile, x: nat, y: nat, address: nat, beyond: seq<Byte>, k: Kernel, env: nat -> Kernel)
    returns (reply: Reply)
    requires dev.Valid() && filp.fPos == 0 && BlockAddress(address)
    requires x < dev.Capacity() && x < TWO_32 && y < TWO_32 && dev.InPlace()
    modifies filp
    ensures dev.Valid()
    ensures reply.Exit? <==> k.interrupted || x >= |dev.Commands()| || y >= |dev.Commands()[x]|
    ensures reply.Reply? && (forall i :: Clean(env(i))) ==>
              reply.transcript == dev.Commands()[x][y..] + Flatten(dev.Commands()[x + 1..])
  {
    RequestReachesByte(dev, x, y, BehindTheSlots(dev.Now(), address));
    ghost var parts;
    reply, parts := ServeSeek(dev, filp, Request(x, y), address, beyond, k, env);
  }

  lemma {:induction false} RequestReachesByte(dev: Device, x: nat, y: nat, beyond: nat)
    requires dev.Valid() && x < dev.Capacity() && x < TWO_32 && y < TWO_32 && dev.InPlace()
    ensures PREFIX <= Request(x, y)
    ensures var target := Target(Parse(Request(x, y)), dev.SlotSizes(), beyond);
            && (target.Some? <==> x < |dev.Commands()| && y < |dev.Commands()[x]|)
            && (target.Some? ==>
                  && target.value >= 0
                  && Ahead(Visible(dev.log, dev.Capacity()), target.value) ==
                     dev.Commands()[x][y..] + Flatten(dev.Commands()[x + 1..]))
  {
    TargetOfRequest(x, y, dev.SlotSizes(), beyond);
    dev.SeekLands(x, y, beyond);
    var target := Coded(dev.SlotSizes(), beyond, 0, x, y);
    if target.Some? {
      PlaceIsAhead(dev.Commands(), target.value, Place(x, y));
    }
  }

  lemma {:induction false} TargetOfRequest(x: nat, y: nat, slots: seq<nat>, beyond: nat)
    requires x < TWO_32 && y < TWO_32
    ensures PREFIX <= Request(x, y)
    ensures Target(Parse(Request(x, y)), slots, beyond) == Coded(slots, beyond, 0, x, y)
  {
    RequestRoundTrip(x, y);
  }

  lemma {:induction false} PlaceIsAhead(cmds: seq<seq<Byte>>, pos: nat, p: Place)
    requires Locate(Lengths(cmds), pos) == Some(p)
    ensures p.index < |cmds| && p.offset < |cmds[p.index]|
    ensures Ahead(Flatten(cmds), pos) == cmds[p.index][p.offset..] + Flatten(cmds[p.index + 1..])
  {
    PlaceInFile(cmds, pos, p);
    FlattenAround(cmds, p.index);
    DropInto(Flatten(cmds[..p.index]), cmds[p.index], Flatten(cmds[p.index + 1..]), p.offset);
  }

  lemma {:induction false} PlaceInFile(cmds: seq<seq<Byte>>, pos: nat, p: Place)
    requires Locate(Lengths(cmds), pos) == Some(p)
    ensures p.index < |cmds| && p.offset < |cmds[p.index]|
    ensures pos == Sum(Lengths(cmds)[..p.index]) + p.offset
  {
    LocateSound(Lengths(cmds), pos);
  }

  lemma {:induction false} FlattenAround(cmds: seq<seq<Byte>>, i: nat)
    requires i < |cmds|
    ensures |Flatten(cmds[..i])| == Sum(Lengths(cmds)[..i])
    ensures Flatten(cmds) == Flatten(cmds[..i]) + (cmds[i] + Flatten(cmds[i + 1..]))
  {
    var before, rest := cmds[..i], cmds[i + 1..];
    assert cmds == before + ([cmds[i]] + rest);
    FlattenAppend(before, [cmds[i]] + rest);
    FlattenCons(cmds[i], rest);
    FlattenLength(before);
    assert Lengths(before) == Lengths(cmds)[..i];
  }

  lemma {:induction false} DropInto(a: seq<Byte>, b: seq<Byte>, c: seq<Byte>, i: nat)
    requires i <= |b|
    ensures (a + (b + c))[|a| + i..] == b[i..] + c
  {
  }

  ghost predicate EndsWith(s: seq<Byte>, tail: seq<Byte>) {
    |tail| <= |s| && s[|s| - |tail|..] == tail
  }

  /** Echo: a terminated packet joins the pending bytes, and the command they make is read back at
      the end of the reply; of short printable commands the client receives what was read exactly when no command
      the device holds is shorter than an older one, or fills the send buffer. */
  method EchoPacket(dev: Device, filp: OpenFile, packet: seq<Byte>, beyond: seq<Byte>, k: Kernel, env: nat -> Kernel)
    returns (reply: Reply)
    requires dev.Valid() && filp.fPos == 0 && Intact(dev.Now())
    requires NEWLINE in packet && Clean(k) && forall i :: Clean(env(i))
    modifies filp, dev, dev.heap, dev.circleBuff, dev.circleBuff.entry, {dev.circleBuffEntry.buffptr} - {null}
    ensures dev.Valid()
    ensures reply.Exit? <==> !k.allocOk || |old(dev.log.pending) + packet| > LIMIT
    ensures reply.Reply? ==>
              && dev.log == Log(old(dev.log.committed) + [old(dev.log.pending) + packet], [])
              && reply.transcript == Visible(dev.log, dev.Capacity())
              && EndsWith(reply.transcript, old(dev.log.pending) + packet) && EndsWith(reply.transcript, packet)
    ensures reply.Reply? && Short(dev.Commands()) && NUL !in reply.transcript ==>
              (reply.sent == reply.transcript <==> Growing(dev.Commands(), 0, BUFFER_SIZE, beyond))
  {
    EchoOf(dev.Now(), packet, k, dev.Capacity());
    ghost var parts;
    reply, parts := ServeWrite(dev, filp, packet, beyond, k, env);
    if reply.Reply? && Short(dev.Commands()) && NUL !in reply.transcript {
      SentIsRead(reply.transcript, reply.sent, parts, beyond);
    }
  }

  /** What an undisturbed write of a terminated packet does. */
  lemma {:induction false} EchoOf(s: Store, packet: seq<Byte>, k: Kernel, n: nat)
    requires NEWLINE in packet && Clean(k) && n > 0
    ensures WriteResult(s, packet, k).Done? <==> k.allocOk && |s.log.pending + packet| <= LIMIT
    ensures WriteResult(s, packet, k).Done? ==>
              Append(s.log, Taken(s, packet, k)) == Log(s.log.committed + [s.log.pending + packet], [])
    ensures EndsWith(Visible(Log(s.log.committed + [s.log.pending + packet], []), n), s.log.pending + packet)
    ensures EndsWith(Visible(Log(s.log.committed + [s.log.pending + packet], []), n), packet)
  {
    NewlineAtEnd(s.log.pending, packet);
    LastInFile(s.log.committed, s.log.pending, packet, n);
    if WriteResult(s, packet, k).Done? {
      TakenWhole(s, packet, k);
    }
  }

  /** The file ends with the newest command, and so with what that ends with. */
  lemma {:induction false} LastInFile(committed: seq<seq<Byte>>, pending: seq<Byte>, packet: seq<Byte>, n: nat)
    requires n > 0
    ensures EndsWith(Visible(Log(committed + [pending + packet], []), n), pending + packet)
    ensures EndsWith(Visible(Log(committed + [pending + packet], []), n), packet)
  {
    var command := pending + packet;
    var shown := Recent(committed + [command], n);
    var front := shown[..|shown| - 1];
    assert shown == front + [command];
    FlattenAppend(front, [command]);
    FlattenOne(command);
    EndsJoin(Flatten(front), command);
    EndsJoin(Flatten(front) + pending, packet);
    assert Flatten(front) + pending + packet == Flatten(front) + command;
  }

  lemma {:induction false} TakenWhole(s: Store, packet: seq<Byte>, k: Kernel)
    requires NEWLINE in packet && Clean(k) && WriteResult(s, packet, k).Done?
    ensures Taken(s, packet, k) == packet
  {
  }

  lemma {:induction false} NewlineAtEnd(a: seq<Byte>, b: seq<Byte>)
    requires NEWLINE in b
    ensures NEWLINE in a + b
  {
    var i :| 0 <= i < |b| && b[i] == NEWLINE;
    assert (a + b)[|a| + i] == NEWLINE;
  }

  lemma {:induction false} EndsJoin(a: seq<Byte>, b: seq<Byte>)
    ensures EndsWith(a + b, b)
  {
  }
}
