/** What one call on the device means: its answer and what it leaves behind, for every
    choice the kernel can make. */
module Calls {
  import opened Machine
  import opened Sequences
  import opened Lookup
  import opened CircularBuffer
  import opened CommandLog
  import opened KernelHeap
  import opened Seek

  /** Return value of a driver call: a byte count, a file position, or a negated error number. */
  datatype Outcome = Done(count: nat) | At(position: Loff) | Fault | Restart | NoMemory | Invalid

  /** What the kernel decides during a call: whether waiting for the mutex is interrupted,
      how allocation goes, and how many bytes at the end of a user copy are not copied. */
  datatype Kernel = Kernel(interrupted: bool, allocOk: bool, keep: bool, slack: nat, uncopied: nat) {
    function Copied(count: nat): (r: nat)
      ensures r <= count
      ensures uncopied <= count ==> r + uncopied == count
      ensures uncopied > count ==> r == 0
    {
      if uncopied <= count then count - uncopied else 0
    }
  }

  /** No signal, memory at hand, every byte copied. */
  const SMOOTH := Kernel(false, true, true, 0, 0)

  /** Neither interrupted nor cut short. */
  ghost predicate Clean(k: Kernel) {
    !k.interrupted && k.uncopied == 0
  }

  /** The device between calls: its meaning, and whether a block is held for pending bytes. */
  datatype Store = Store(log: Log, held: bool)

  const FRESH := Store(EMPTY, false)

  /** A failed krealloc has not taken the pending bytes away. */
  ghost predicate Intact(s: Store) {
    s.log.pending != [] ==> s.held
  }

  /** A block is held although no byte is pending. */
  ghost predicate Idle(s: Store) {
    s.held && s.log.pending == []
  }

  // ----- writing

  /** The call gets as far as asking for memory. */
  predicate Asks(bytes: seq<Byte>, k: Kernel) {
    bytes != [] && !k.interrupted
  }

  predicate Granted(s: Store, bytes: seq<Byte>, k: Kernel) {
    k.allocOk && |s.log.pending| + |bytes| <= LIMIT
  }

  function WriteResult(s: Store, bytes: seq<Byte>, k: Kernel): Outcome {
    if bytes == [] then Done(0)
    else if k.interrupted then Restart
    else if !Granted(s, bytes, k) then NoMemory
    else Done(k.Copied(|bytes|))
  }

  /** The bytes the device takes in. */
  function Taken(s: Store, bytes: seq<Byte>, k: Kernel): seq<Byte> {
    if Asks(bytes, k) && Granted(s, bytes, k) then bytes[..k.Copied(|bytes|)] else []
  }

  /** What the pending block can hold when the new bytes are copied behind it. */
  ghost predicate Leads(s: Store, lead: seq<Byte>) {
    |lead| == |s.log.pending| && (Intact(s) ==> lead == s.log.pending)
  }

  function AfterWrite(s: Store, bytes: seq<Byte>, k: Kernel, lead: seq<Byte>): Store {
    if !Asks(bytes, k) then s
    else if !Granted(s, bytes, k) then Store(s.log, false)
    else
      var tail := lead + Taken(s, bytes, k);
      Store(Append(Log(s.log.committed, lead), Taken(s, bytes, k)), NEWLINE !in tail)
  }

  /** Memory asked for while an idle block is held: that block is forgotten. */
  ghost predicate DropsIdle(s: Store, bytes: seq<Byte>, k: Kernel) {
    Asks(bytes, k) && Idle(s)
  }

  /** krealloc fails: the pending bytes and their block are forgotten. */
  ghost predicate LosesBytes(s: Store, bytes: seq<Byte>, k: Kernel) {
    Asks(bytes, k) && s.log.pending != [] && !Granted(s, bytes, k)
  }

  /** With nothing lost before, a write takes the bytes in behind the pending ones. */
  lemma {:induction false} AfterWriteAppends(s: Store, bytes: seq<Byte>, k: Kernel, lead: seq<Byte>)
    requires Settled(s.log) && Intact(s)
    requires Asks(bytes, k) && Granted(s, bytes, k) ==> Leads(s, lead)
    ensures AfterWrite(s, bytes, k, lead).log == Append(s.log, Taken(s, bytes, k))
    ensures Intact(AfterWrite(s, bytes, k, lead)) <==> !LosesBytes(s, bytes, k)
  {
    assert s.log.pending + [] == s.log.pending;
  }

  /** Whatever the block may hold, the bytes join the pending ones: true of a granted request
      exactly when no krealloc had failed before. */
  lemma {:induction false} AppendsExact(s: Store, bytes: seq<Byte>, k: Kernel)
    requires Settled(s.log) && Asks(bytes, k) && Granted(s, bytes, k)
    ensures (forall lead :: Leads(s, lead) ==> AfterWrite(s, bytes, k, lead).log == Append(s.log, Taken(s, bytes, k)))
            <==> Intact(s)
  {
    if !Intact(s) {
      var p := s.log.pending;
      var other := seq(|p|, i requires 0 <= i < |p| => if p[i] == 'x' then 'y' else 'x');
      var taken := Taken(s, bytes, k);
      assert Leads(s, other);
      assert (other + taken)[0] != (p + taken)[0];
      AppendTells(s.log.committed, other, p, taken);
    }
  }

  lemma {:induction false} AppendTells(committed: seq<seq<Byte>>, a: seq<Byte>, b: seq<Byte>, taken: seq<Byte>)
    requires a + taken != b + taken
    ensures Append(Log(committed, a), taken) != Append(Log(committed, b), taken)
  {
    var left, right := committed + [a + taken], committed + [b + taken];
    assert left[|committed|] != right[|committed|];
  }

  /** An idle block comes only from a write that copies nothing in while nothing is pending,
      and goes with the next request for memory. */
  lemma {:induction false} IdleAfterWrite(s: Store, bytes: seq<Byte>, k: Kernel, lead: seq<Byte>)
    requires Intact(s) && (Asks(bytes, k) && Granted(s, bytes, k) ==> Leads(s, lead))
    ensures Idle(AfterWrite(s, bytes, k, lead)) <==>
            if Asks(bytes, k) then s.log.pending == [] && Granted(s, bytes, k) && k.Copied(|bytes|) == 0 else Idle(s)
  {
  }

  // ----- seeking

  datatype Whence = SeekSet | SeekCur | SeekEnd | OtherWhence

  /** fixed_size_llseek of the kernel: positions outside 0 to `size` are refused. */
  function SeekWithin(pos: Loff, offset: Loff, whence: Whence, size: nat): Option<Loff> {
    match whence
    case SeekSet => Within(offset, size)
    case SeekCur => if offset == 0 then Some(pos) else Within(S64(pos + offset), size)
    case SeekEnd => Within(S64(size + offset), size)
    case OtherWhence => None
  }

  function Within(target: Loff, size: nat): Option<Loff> {
    if 0 <= target <= size then Some(target) else None
  }

  /** Where a seek is meant to go. */
  function Wanted(pos: Loff, offset: Loff, whence: Whence, size: nat): int {
    if whence.SeekSet? then offset else if whence.SeekCur? then pos + offset else size + offset
  }

  lemma {:induction false} SeekTarget(pos: Loff, offset: Loff, whence: Whence, size: nat)
    requires size < TWO_63
    ensures var target, wanted := SeekWithin(pos, offset, whence, size), Wanted(pos, offset, whence, size);
            && (target.Some? <==> !whence.OtherWhence? && (0 <= S64(wanted) <= size || (whence.SeekCur? && offset == 0)))
            && (target.Some? ==> target == Some(S64(wanted)))
            && (pos >= 0 ==> (0 <= S64(wanted) <= size <==> 0 <= wanted <= size))
  {
  }

  /** Seeking succeeds exactly for targets inside the file, and for SEEK_CUR by 0 from wherever
      the position is, as behind a file that got shorter; a read at the target then returns
      something exactly before the end. */
  lemma {:induction false} SeekThenRead(l: Log, n: nat, pos: Loff, offset: Loff, whence: Whence, count: nat)
    requires |Visible(l, n)| < TWO_63 && count > 0
    ensures var size := |Visible(l, n)|;
            var target, wanted := SeekWithin(pos, offset, whence, size), Wanted(pos, offset, whence, size);
            && (target.Some? <==> !whence.OtherWhence? && (0 <= S64(wanted) <= size || (whence.SeekCur? && offset == 0)))
            && (target.Some? ==> target == Some(S64(wanted)))
            && (pos >= 0 ==> (0 <= S64(wanted) <= size <==> 0 <= wanted <= size))
            && (target.Some? ==> (ReadAt(Recent(l.committed, n), U64(target.value), count) != [] <==> U64(target.value) < size))
  {
    var target := SeekWithin(pos, offset, whence, |Visible(l, n)|);
    SeekTarget(pos, offset, whence, |Visible(l, n)|);
    if target.Some? {
      ReadIsSlice(Recent(l.committed, n), U64(target.value), count);
    }
  }

  /** The sizes in the slots after these commands were committed. */
  ghost function SlotsOf(n: nat, committed: seq<seq<Byte>>): (slots: seq<nat>)
    requires n > 0
    ensures |slots| == n
  {
    ImageOf(n, Lengths(committed), 0).entry
  }

  /** Where every pointer and size_t has 8 bytes, the size field one past the last slot lies on
      the pointer to the pending block. Block addresses lie beyond any 32-bit offset. */
  ghost predicate BlockAddress(address: nat) {
    TWO_32 <= address < TWO_64
  }

  function BehindTheSlots(s: Store, address: nat): nat {
    if s.held then address else 0
  }

  // ----- one call

  /** A call with its arguments; `address` is where the pending block lies, if there is one. */
  datatype Op =
    | WriteOp(bytes: seq<Byte>, k: Kernel)
    | ReadOp(count: nat, k: Kernel)
    | SeekOp(offset: Loff, whence: Whence, k: Kernel)
    | SeekToOp(cmd: nat, cmdOffset: nat, address: nat, k: Kernel)

  /** The return value, the bytes delivered, and the file position afterwards. */
  datatype Answer = Answer(r: Outcome, data: seq<Byte>, pos: Loff)

  function ReadAnswer(n: nat, s: Store, pos: Loff, count: nat, k: Kernel): Answer {
    var found := ReadAt(Recent(s.log.committed, n), U64(pos), count);
    var data := found[..k.Copied(|found|)];
    Answer(Done(|data|), data, S64(pos + |data|))
  }

  function SeekAnswer(n: nat, s: Store, pos: Loff, offset: Loff, whence: Whence): Answer {
    match SeekWithin(pos, offset, whence, |Visible(s.log, n)|)
    case None => Answer(Invalid, [], pos)
    case Some(target) => Answer(At(target), [], target)
  }

  ghost function SeekToAnswer(n: nat, s: Store, pos: Loff, cmd: nat, cmdOffset: nat, address: nat): Answer
    requires n > 0
  {
    match Coded(SlotsOf(n, s.log.committed), BehindTheSlots(s, address), pos, cmd, cmdOffset)
    case None => Answer(Invalid, [], pos)
    case Some(target) => Answer(Done(0), [], target)
  }

  ghost function AnswerTo(n: nat, s: Store, pos: Loff, op: Op): Answer
    requires n > 0
  {
    if op.WriteOp? then Answer(WriteResult(s, op.bytes, op.k), [], pos)
    else if op.k.interrupted then Answer(Restart, [], pos)
    else match op
      case ReadOp(count, k) => ReadAnswer(n, s, pos, count, k)
      case SeekOp(offset, whence, _) => SeekAnswer(n, s, pos, offset, whence)
      case SeekToOp(cmd, cmdOffset, address, _) => SeekToAnswer(n, s, pos, cmd, cmdOffset, address)
      case WriteOp(_, _) => Answer(Fault, [], pos)
  }

  /** An interrupted wait: the call has no effect and can be made again. */
  lemma {:induction false} Interrupted(n: nat, s: Store, pos: Loff, op: Op, lead: seq<Byte>)
    requires n > 0 && op.k.interrupted && !(op.WriteOp? && op.bytes == [])
    ensures AnswerTo(n, s, pos, op) == Answer(Restart, [], pos) && AfterCall(s, op, lead) == s
  {
  }

  /** An empty write succeeds whatever the kernel does; any other asks for memory. */
  lemma {:induction false} WriteAnswered(s: Store, bytes: seq<Byte>, k: Kernel)
    ensures bytes == [] ==> WriteResult(s, bytes, k) == Done(0)
    ensures bytes != [] && k.interrupted ==> WriteResult(s, bytes, k) == Restart
    ensures bytes != [] && !k.interrupted ==>
              WriteResult(s, bytes, k) ==
              if !k.allocOk || |s.log.pending + bytes| > LIMIT then NoMemory
              else Done(if k.uncopied <= |bytes| then |bytes| - k.uncopied else 0)
  {
  }

  /** What a seek answers, case by case. Only a sum below the least loff_t can wrap into the file. */
  lemma {:induction false} SeekAnswered(n: nat, s: Store, pos: Loff, offset: Loff, whence: Whence, k: Kernel)
    requires n > 0 && !k.interrupted && |Visible(s.log, n)| < TWO_63
    ensures var a, size := AnswerTo(n, s, pos, SeekOp(offset, whence, k)), |Visible(s.log, n)|;
            && (whence.OtherWhence? ==> a == Answer(Invalid, [], pos))
            && (whence.SeekSet? ==>
                  a == if 0 <= offset <= size then Answer(At(offset), [], offset) else Answer(Invalid, [], pos))
            && (whence.SeekEnd? ==>
                  a == if 0 <= size + offset <= size then Answer(At(size + offset), [], size + offset)
                       else Answer(Invalid, [], pos))
            && (whence.SeekCur? && offset == 0 ==> a == Answer(At(pos), [], pos))
            && (whence.SeekCur? && offset != 0 ==>
                  var wanted := if pos + offset < -TWO_63 then pos + offset + TWO_64 else pos + offset;
                  a == if 0 <= wanted <= size then Answer(At(wanted), [], wanted) else Answer(Invalid, [], pos))
  {
  }

  /** What an uninterrupted read answers. */
  lemma {:induction false} ReadAnswered(n: nat, s: Store, pos: Loff, count: nat, k: Kernel, copied: nat)
    requires n > 0 && !k.interrupted && copied == k.Copied(|ReadAt(Recent(s.log.committed, n), U64(pos), count)|)
    ensures AnswerTo(n, s, pos, ReadOp(count, k)) ==
            Answer(Done(copied), ReadAt(Recent(s.log.committed, n), U64(pos), count)[..copied], S64(pos + copied))
  {
    var found := ReadAt(Recent(s.log.committed, n), U64(pos), count);
    assert |found[..copied]| == copied;
    assert ReadAnswer(n, s, pos, count, k) == Answer(Done(copied), found[..copied], S64(pos + copied));
  }

  function AfterCall(s: Store, op: Op, lead: seq<Byte>): Store {
    if op.WriteOp? then AfterWrite(s, op.bytes, op.k, lead) else s
  }

  /** Only a write that gets its memory depends on what the block holds. */
  ghost predicate Fits(s: Store, op: Op, lead: seq<Byte>) {
    if op.WriteOp? && Asks(op.bytes, op.k) && Granted(s, op.bytes, op.k) then Leads(s, lead) else lead == []
  }

  lemma {:induction false} AfterCallSettled(s: Store, op: Op, lead: seq<Byte>)
    requires Settled(s.log)
    ensures Settled(AfterCall(s, op, lead).log)
  {
    if op.WriteOp? && Asks(op.bytes, op.k) && Granted(s, op.bytes, op.k) {
      var tail := lead + Taken(s, op.bytes, op.k);
      var committed := s.log.committed + [tail];
      assert NEWLINE in tail ==> forall i :: 0 <= i < |committed| ==> NEWLINE in committed[i];
    }
  }

  // ----- sizes

  /** No command, nor the pending bytes, is larger than a block can be. */
  ghost predicate Sized(l: Log) {
    |l.pending| <= LIMIT && forall i :: 0 <= i < |l.committed| ==> |l.committed[i]| <= LIMIT
  }

  lemma {:induction false} AfterCallSized(s: Store, op: Op, lead: seq<Byte>)
    requires Sized(s.log) && Fits(s, op, lead)
    ensures Sized(AfterCall(s, op, lead).log)
  {
    if op.WriteOp? && Asks(op.bytes, op.k) && Granted(s, op.bytes, op.k) {
      var tail := lead + Taken(s, op.bytes, op.k);
      assert |tail| <= LIMIT;
    }
  }

  /** So positions in the visible file never wrap. */
  lemma {:induction false} VisibleFits(l: Log, n: nat)
    requires Sized(l) && n <= 255
    ensures |Visible(l, n)| < TWO_63
  {
    var cmds := Recent(l.committed, n);
    forall i | 0 <= i < |cmds|
      ensures Lengths(cmds)[i] <= INT_MAX
    {
      assert cmds[i] == l.committed[|l.committed| - |cmds| + i];
    }
    NoWrap(Lengths(cmds));
    FlattenLength(cmds);
  }

  lemma {:induction false} AfterCallGrows(s: Store, op: Op, lead: seq<Byte>)
    ensures s.log.committed <= AfterCall(s, op, lead).log.committed
  {
  }

  // ----- the command one past the last slot

  /** Asking for command `n` of `n` succeeds exactly while a block is held: its address is taken
      for a size. */
  lemma {:induction false} PastTheSlots(n: nat, s: Store, pos: Loff, offset: nat, address: nat, k: Kernel)
    requires n > 0 && BlockAddress(address) && offset < TWO_32
    ensures AnswerTo(n, s, pos, SeekToOp(n, offset, address, k)).r == Done(0) <==> s.held && !k.interrupted
  {
  }

  /** That is wrong: there is no such command. */
  lemma {:induction false} SeekPastTheSlots(n: nat, s: Store, pos: Loff, offset: nat, address: nat, k: Kernel)
    requires n > 0 && BlockAddress(address) && offset < TWO_32
    requires Sum(Lengths(Recent(s.log.committed, n))) < TWO_63
    ensures Documented(Lengths(Recent(s.log.committed, n)), n, offset) == None
    ensures AnswerTo(n, s, pos, SeekToOp(n, offset, address, k)).r == Done(0) <==> s.held && !k.interrupted
  {
    PastTheSlots(n, s, pos, offset, address, k);
  }

  /** A client that has sent an unterminated packet brings a new device into such a state. */
  lemma {:induction false} SeekPastTheSlotsHappens(address: nat)
    requires BlockAddress(address)
    ensures var s := AfterCall(FRESH, WriteOp("a", SMOOTH), []);
            && Fits(FRESH, WriteOp("a", SMOOTH), [])
            && AnswerTo(MAX_WRITE_OPERATIONS, s, 0, SeekToOp(10, 7, address, SMOOTH)) == Answer(Done(0), [], 7)
  {
    var s := AfterCall(FRESH, WriteOp("a", SMOOTH), []);
    assert s.held;
    var slots := SlotsOf(10, []);
    assert forall i :: 0 <= i < 10 ==> slots[i] == 0;
    assert slots[..10] == slots;
    SumZero(slots);
  }

  // ----- the bytes a failed krealloc takes away

  /** "a" pends, krealloc fails for "b", and the newline then follows whatever its new block held. */
  lemma {:induction false} FailedReallocLosesBytes()
    ensures var pends := AfterCall(FRESH, WriteOp("a", SMOOTH), []);
            var fails := WriteOp("b", SMOOTH.(allocOk := false));
            var failed := AfterCall(pends, fails, []);
            && Fits(FRESH, WriteOp("a", SMOOTH), []) && Fits(pends, fails, []) && Fits(failed, WriteOp("\n", SMOOTH), "x")
            && AfterCall(failed, WriteOp("\n", SMOOTH), "x").log == Log(["x\n"], [])
  {
    var pends := AfterCall(FRESH, WriteOp("a", SMOOTH), []);
    assert Taken(FRESH, "a", SMOOTH) == "a" && [] + "a" == "a";
    assert pends == Store(Log([], "a"), true);
    var failed := AfterCall(pends, WriteOp("b", SMOOTH.(allocOk := false)), []);
    assert failed == Store(Log([], "a"), false);
    assert Taken(failed, "\n", SMOOTH) == "\n" && "x" + "\n" == "x\n";
    assert "x\n"[1] == NEWLINE;
  }
}
