/** The aesdchar driver of main.c. */
module Driver {
  import opened Machine
  import opened Sequences
  import opened Lookup
  import opened CircularBuffer
  import opened CommandLog
  import opened KernelHeap
  import opened Seek
  import opened Calls

  class OpenFile {
    var fPos: Loff

    constructor ()
      ensures fPos == 0
    {
      fPos := 0;
    }
  }

  // ----- ownership of blocks

  ghost function Blocks(es: seq<Entry>): set<array?<Byte>> {
    (set i | 0 <= i < |es| :: es[i].buffptr) - {null}
  }

  ghost predicate Unshared(es: seq<Entry>) {
    forall i, j :: 0 <= i < j < |es| && es[i].buffptr != null ==> es[i].buffptr != es[j].buffptr
  }

  lemma {:induction false} ReplaceEntry(es: seq<Entry>, i: nat, e: Entry)
    requires i < |es| && Unshared(es)
    requires e.buffptr == null || e.buffptr !in Blocks(es) - {es[i].buffptr}
    ensures Unshared(es[i := e])
    ensures Blocks(es[i := e]) == Blocks(es) - {es[i].buffptr} + ({e.buffptr} - {null})
  {
    var es' := es[i := e];
    forall j | 0 <= j < |es| && j != i
      ensures es[j].buffptr != null ==> es[j].buffptr in Blocks(es) && es[j].buffptr != es[i].buffptr
      ensures es[j].buffptr != null ==> es[j].buffptr in Blocks(es')
    {
      assert es'[j] == es[j];
    }
    assert es'[i] == e;
  }

  /** Who owns what: the live blocks are those in the entries and the leaked ones. */
  ghost predicate Accounted(es: seq<Entry>, live: set<array?<Byte>>, leaked: set<array?<Byte>>) {
    Unshared(es) && live == Blocks(es) + leaked && Blocks(es) !! leaked && null !in leaked
  }

  /** A request for memory replaces the last entry's pointer by a new one, by that of the block
      kept, or by NULL. */
  lemma {:induction false} ReserveAccounts(es: seq<Entry>, e: Entry, live: set<array?<Byte>>, live': set<array?<Byte>>,
                                           leaked: set<array?<Byte>>)
    requires es != [] && Accounted(es, live, leaked)
    requires var was := es[|es| - 1];
             && (e.buffptr == null || e.buffptr !in live || (e.buffptr == was.buffptr && was.size != 0))
             && live' == (if e.buffptr == null then live
                          else (if was.size == 0 then live else live - ({was.buffptr} - {null})) + {e.buffptr})
    ensures var was := es[|es| - 1];
            Accounted(es[|es| - 1 := e], live',
                      leaked + if was.size == 0 || e.buffptr == null then {was.buffptr} - {null} else {})
  {
    var last := |es| - 1;
    assert es[last].buffptr != null ==> es[last].buffptr in Blocks(es);
    ReplaceEntry(es, last, e);
  }

  /** Moving the entry at `from` into slot `to` gives up the block of that slot and no other. */
  lemma {:induction false} MoveEntry(es: seq<Entry>, to: nat, from: nat, es': seq<Entry>)
    requires to < from < |es| && Unshared(es)
    requires es' == es[to := es[from]][from := ZERO_ENTRY]
    ensures Unshared(es') && Blocks(es') == Blocks(es) - {es[to].buffptr}
  {
    var cleared := es[from := ZERO_ENTRY];
    ReplaceEntry(es, from, ZERO_ENTRY);
    assert es[from].buffptr != null ==> es[from].buffptr !in Blocks(cleared);
    ReplaceEntry(cleared, to, es[from]);
    assert es' == cleared[to := es[from]];
    assert cleared[to] == es[to];
  }

  /** Then that block is freed. */
  lemma {:induction false} CommitAccounts(es: seq<Entry>, to: nat, from: nat, es': seq<Entry>,
                                          live: set<array?<Byte>>, leaked: set<array?<Byte>>)
    requires to < from < |es| && Accounted(es, live, leaked)
    requires es' == es[to := es[from]][from := ZERO_ENTRY]
    ensures Accounted(es', live - ({es[to].buffptr} - {null}), leaked)
  {
    MoveEntry(es, to, from, es');
    assert es[to].buffptr != null ==> es[to].buffptr in Blocks(es);
  }

  /** The block of `e` holds `bytes`. */
  ghost predicate Holds(e: Entry, bytes: seq<Byte>)
    reads e.buffptr
  {
    && e.buffptr != null
    && e.size == |bytes| <= LIMIT && e.size <= e.buffptr.Length
    && e.buffptr[..e.size] == bytes
  }

  lemma {:induction false} ArraySlice(a: array<Byte>, lo: nat, mid: nat, hi: nat)
    requires lo <= mid <= hi <= a.Length
    ensures a[lo..mid] == a[..hi][lo..mid]
  {
    forall i | 0 <= i < mid - lo
      ensures a[lo..mid][i] == a[..hi][lo..mid][i]
    {
    }
  }

  /** What is read of a command is what its block holds there. */
  lemma {:induction false} SliceOfHeld(e: Entry, cmds: seq<seq<Byte>>, place: Place, count: nat, copied: nat)
    requires place.index < |cmds| && place.offset <= |cmds[place.index]| && Holds(e, cmds[place.index])
    ensures var found := BytesAt(cmds, place, count);
            && |found| == (if count > e.size - place.offset then e.size - place.offset else count)
            && (copied <= |found| ==> e.buffptr[place.offset..place.offset + copied] == found[..copied])
  {
    var found := BytesAt(cmds, place, count);
    var whole, from := e.buffptr[..e.size], place.offset;
    assert found == whole[from..from + |found|];
    if copied <= |found| {
      ArraySlice(e.buffptr, from, from + copied, e.size);
      SliceTake(whole, from, from + copied, from + |found|);
    }
  }

  class Device {
    const circleBuff: CircularBuffer
    const heap: KernelHeap
    var circleBuffEntry: Entry

    /** The meaning of the contents: all commands ever committed, and the pending bytes. */
    ghost var log: Log
    /** Blocks that are live although nothing points to them any more. */
    ghost var leaked: set<array?<Byte>>

    ghost function Entries(): seq<Entry>
      reads this, circleBuff, circleBuff.entry
    {
      circleBuff.entry[..] + [circleBuffEntry]
    }

    ghost function Capacity(): nat {
      circleBuff.entry.Length
    }

    /** The commands a reader can see, oldest first. */
    ghost function Commands(): seq<seq<Byte>>
      reads this
    {
      Recent(log.committed, Capacity())
    }

    /** The live blocks are exactly those some entry points to and those leaked; no block is shared. */
    ghost predicate Owned()
      reads this, circleBuff, circleBuff.entry, heap
    {
      Accounted(Entries(), heap.live, leaked)
    }

    /** Every visible command lies in the live block its entry points to. */
    ghost predicate Held()
      reads this, circleBuff, circleBuff.entry, heap, heap.live
    {
      && |circleBuff.history| == |log.committed|
      && (forall j :: 0 <= j < |log.committed| && |log.committed| - Capacity() <= j ==>
            circleBuff.history[j].buffptr in heap.live && Holds(circleBuff.history[j], log.committed[j]))
      && (forall j :: 0 <= j < |log.committed| ==> NEWLINE in log.committed[j])
    }

    ghost predicate Consistent()
      reads this, circleBuff, circleBuff.entry, heap, heap.live
    {
      && circleBuff.Valid() && Owned() && Held()
      && circleBuffEntry.size == |log.pending| <= LIMIT
      && (circleBuffEntry.buffptr != null ==>
            circleBuffEntry.buffptr in heap.live && Holds(circleBuffEntry, log.pending))
    }

    ghost predicate Valid()
      reads this, circleBuff, circleBuff.entry, heap, heap.live
    {
      Consistent() && NEWLINE !in log.pending
    }

    /** What the call semantics sees of the device. */
    ghost function Now(): Store
      reads this
    {
      Store(log, circleBuffEntry.buffptr != null)
    }

    /** Nothing leaked, nothing lost, and no idle block is held. */
    ghost predicate Tidy()
      reads this
    {
      leaked == {} && Intact(Now()) && !Idle(Now())
    }

    constructor (capacity: nat)
      requires 1 <= capacity <= MAX_CAPACITY
      ensures Valid() && Tidy() && log == EMPTY && Capacity() == capacity
      ensures fresh(circleBuff) && fresh(circleBuff.entry) && fresh(heap) && heap.live == {}
    {
      circleBuff := new CircularBuffer(capacity);
      heap := new KernelHeap();
      circleBuffEntry := ZERO_ENTRY;
      log, leaked := EMPTY, {};
    }

    /** The block of a visible command is neither the pending block nor, unless the command is
        the oldest of a full ring, the block about to be pushed out. */
    lemma {:induction false} BlocksApart()
      requires circleBuff.Valid() && Unshared(Entries()) && Held()
      ensures circleBuff.inOffs < Capacity()
      ensures var k := |log.committed|;
              forall j :: 0 <= j < k && k - Capacity() <= j ==>
                && circleBuff.history[j].buffptr != circleBuffEntry.buffptr
                && (k - Capacity() < j ==>
                      circleBuff.history[j].buffptr != circleBuff.entry[circleBuff.inOffs].buffptr)
    {
      var n, k, es := Capacity(), |log.committed|, Entries();
      RecordsWellFormed(circleBuff.Snapshot(), circleBuff.history, ZERO_ENTRY);
      forall j | 0 <= j < k && k - n <= j
        ensures circleBuff.history[j].buffptr != circleBuffEntry.buffptr
        ensures k - n < j ==> circleBuff.history[j].buffptr != circleBuff.entry[circleBuff.inOffs].buffptr
      {
        assert es[n] == circleBuffEntry;
        assert es[SlotFor(j, n)] == circleBuff.history[j];
        assert es[circleBuff.inOffs] == circleBuff.entry[circleBuff.inOffs];
        if k - n < j {
          SlotDistinct(j, k, n);
        }
      }
    }

    lemma {:induction false} PendingOwned()
      requires Owned()
      ensures circleBuffEntry.buffptr !in leaked
    {
      assert Entries()[Capacity()] == circleBuffEntry;
    }

    /** kmalloc for the first bytes of a command, krealloc for later ones. */
    method Obtain(count: nat, k: Kernel) returns (p: array?<Byte>)
      requires circleBuffEntry.buffptr != null ==>
                 circleBuffEntry.buffptr in heap.live && circleBuffEntry.size <= circleBuffEntry.buffptr.Length
      modifies heap
      ensures p != null <==> k.allocOk && circleBuffEntry.size + count <= LIMIT
      ensures p != null ==> p.Length >= circleBuffEntry.size + count
      ensures p != null ==> fresh(p) || (p == circleBuffEntry.buffptr && circleBuffEntry.size != 0)
      ensures p == null ==> heap.live == old(heap.live)
      ensures p != null && circleBuffEntry.size == 0 ==> heap.live == old(heap.live) + {p}
      ensures p != null && circleBuffEntry.size != 0 ==>
                heap.live == old(heap.live) - ({circleBuffEntry.buffptr} - {null}) + {p}
      ensures p != null && (circleBuffEntry.size != 0 ==> circleBuffEntry.buffptr != null) ==>
                circleBuffEntry.size == 0 || p[..circleBuffEntry.size] == circleBuffEntry.buffptr[..circleBuffEntry.size]
    {
      if circleBuffEntry.size == 0 {
        p := heap.Kmalloc(count, k.allocOk, k.slack);
      } else {
        p := heap.Krealloc(circleBuffEntry.buffptr, circleBuffEntry.size + count, k.allocOk, k.keep, k.slack);
      }
    }

    /** The first half of aesd_write: memory for `count` more bytes. */
    method Reserve(count: nat, k: Kernel)
      requires Valid() && count > 0
      modifies this, heap
      ensures circleBuff.Valid() && Owned() && Held()
      ensures unchanged(this`log) && circleBuffEntry.size == old(circleBuffEntry.size)
      ensures circleBuffEntry.buffptr != null <==> k.allocOk && old(circleBuffEntry.size) + count <= LIMIT
      ensures circleBuffEntry.buffptr != null ==>
                && circleBuffEntry.buffptr in heap.live
                && circleBuffEntry.buffptr.Length >= circleBuffEntry.size + count
                && (circleBuffEntry.buffptr == old(circleBuffEntry.buffptr) || fresh(circleBuffEntry.buffptr))
                && (old(Intact(Now())) ==> circleBuffEntry.buffptr[..circleBuffEntry.size] == log.pending)
      ensures leaked == old(leaked) +
                if old(circleBuffEntry.size) == 0 || circleBuffEntry.buffptr == null
                then {old(circleBuffEntry.buffptr)} - {null} else {}
    {
      ghost var before, was := Entries(), circleBuffEntry;
      BlocksApart();
      assert before[Capacity()] == was;
      var p := Obtain(count, k);
      circleBuffEntry := Entry(p, circleBuffEntry.size);
      if was.size == 0 || p == null {
        leaked := leaked + ({was.buffptr} - {null});
      }
      assert Entries() == before[Capacity() := circleBuffEntry];
      ReserveAccounts(before, circleBuffEntry, old(heap.live), heap.live, old(leaked));
    }

    /** The second half of aesd_write: the pending block moves into the ring. */
    method Commit()
      requires Consistent() && NEWLINE in log.pending && circleBuffEntry.buffptr != null
      modifies this, heap, circleBuff, circleBuff.entry
      ensures Valid()
      ensures log == Log(old(log.committed) + [old(log.pending)], [])
      ensures circleBuffEntry == ZERO_ENTRY && leaked == old(leaked)
    {
      ghost var before, was, n := Entries(), circleBuffEntry, Capacity();
      RecordsWellFormed(circleBuff.Snapshot(), circleBuff.history, ZERO_ENTRY);
      ghost var slot := circleBuff.inOffs;
      BlocksApart();
      var writeEntry := circleBuff.AddEntry(circleBuffEntry);
      if writeEntry != null {
        assert before[slot].buffptr == writeEntry;
        heap.Kfree(writeEntry);
      }
      circleBuffEntry := ZERO_ENTRY;
      log := Log(log.committed + [log.pending], []);
      CommitAccounts(before, slot, n, Entries(), old(heap.live), leaked);
      ghost var k := |log.committed| - 1;
      forall j | 0 <= j <= k && k + 1 - n <= j
        ensures circleBuff.history[j].buffptr in heap.live && Holds(circleBuff.history[j], log.committed[j])
      {
        if j < k {
          assert circleBuff.history[j] == old(circleBuff.history)[j] && log.committed[j] == old(log.committed)[j];
        }
      }
    }

    /** The pending block is the one held before, or a new one. */
    twostate predicate PendingKnown()
      reads this
    {
      var p := circleBuffEntry.buffptr;
      p == null || p == old(circleBuffEntry.buffptr) || fresh(p)
    }

    /** aesd_write. `lead` is what the pending block held when the new bytes were
        copied behind it: the pending bytes, unless a failed krealloc had lost them. */
    method Write(filp: OpenFile?, buf: Option<seq<Byte>>, k: Kernel) returns (r: Outcome, ghost lead: seq<Byte>)
      requires Valid()
      modifies this, heap, circleBuff, circleBuff.entry, {circleBuffEntry.buffptr} - {null}
      ensures Valid()
      ensures PendingKnown()
      ensures filp == null || buf.None? ==> r == Fault
      ensures filp != null && buf == Some([]) ==> r == Done(0)
      ensures filp != null && buf.Some? && buf.value != [] ==>
                r == if k.interrupted then Restart
                     else if !k.allocOk || |old(log.pending) + buf.value| > LIMIT then NoMemory
                     else Done(if k.uncopied <= |buf.value| then |buf.value| - k.uncopied else 0)
      ensures filp == null || buf.None? || !Asks(buf.value, k) ==> unchanged(this, heap, circleBuff, circleBuff.entry)
      ensures filp != null && buf.Some? ==>
                && r == WriteResult(old(Now()), buf.value, k)
                && Fits(old(Now()), WriteOp(buf.value, k), lead)
                && Now() == AfterWrite(old(Now()), buf.value, k, lead)
      ensures leaked == old(leaked) +
                if filp != null && buf.Some? && (DropsIdle(old(Now()), buf.value, k) || LosesBytes(old(Now()), buf.value, k))
                then {old(circleBuffEntry.buffptr)} - {null} else {}
      ensures filp != null && buf.Some? && old(Intact(Now())) ==>
                (leaked == old(leaked) <==>
                 !DropsIdle(old(Now()), buf.value, k) && !LosesBytes(old(Now()), buf.value, k))
    {
      PendingOwned();
      lead := [];
      if filp == null || buf.None? {
        return Fault, lead;
      }
      WriteAnswered(Now(), buf.value, k);
      var count := |buf.value|;
      if count == 0 {
        return Done(0), lead;
      }
      if k.interrupted {
        return Restart, lead;
      }
      r, lead := WriteLocked(buf.value, k);
    }

    /** The part under the mutex. */
    method WriteLocked(bytes: seq<Byte>, k: Kernel) returns (r: Outcome, ghost lead: seq<Byte>)
      requires Valid() && bytes != []
      modifies this, heap, circleBuff, circleBuff.entry, {circleBuffEntry.buffptr} - {null}
      ensures Valid() && PendingKnown()
      ensures r == if Granted(old(Now()), bytes, k) then Done(k.Copied(|bytes|)) else NoMemory
      ensures if Granted(old(Now()), bytes, k) then Leads(old(Now()), lead) else lead == []
      ensures log == if Granted(old(Now()), bytes, k) then Append(Log(old(log.committed), lead), bytes[..k.Copied(|bytes|)])
                     else old(log)
      ensures circleBuffEntry.buffptr != null <==>
                Granted(old(Now()), bytes, k) && NEWLINE !in lead + bytes[..k.Copied(|bytes|)]
      ensures leaked == old(leaked) +
                if old(log.pending) == [] || !Granted(old(Now()), bytes, k) then {old(circleBuffEntry.buffptr)} - {null} else {}
    {
      Reserve(|bytes|, k);
      if circleBuffEntry.buffptr == null {
        return NoMemory, [];
      }
      var at := circleBuffEntry.size;
      lead := circleBuffEntry.buffptr[..at];
      var copied := k.Copied(|bytes|);
      CopyIn(bytes[..copied]);
      if NEWLINE in circleBuffEntry.buffptr[..circleBuffEntry.size] {
        Commit();
      }
      r := Done(copied);
    }

    /** copy_from_user behind the pending bytes. */
    method CopyIn(bytes: seq<Byte>)
      requires circleBuff.Valid() && Owned() && Held()
      requires circleBuffEntry.buffptr != null && circleBuffEntry.buffptr in heap.live
      requires circleBuffEntry.size + |bytes| <= circleBuffEntry.buffptr.Length
      requires circleBuffEntry.size + |bytes| <= LIMIT
      modifies this, circleBuffEntry.buffptr
      ensures Consistent()
      ensures circleBuffEntry.buffptr == old(circleBuffEntry.buffptr)
      ensures log == Log(old(log.committed), old(circleBuffEntry.buffptr[..circleBuffEntry.size]) + bytes)
      ensures leaked == old(leaked)
    {
      BlocksApart();
      ghost var before := Entries();
      var p, at := circleBuffEntry.buffptr, circleBuffEntry.size;
      log := Log(log.committed, p[..at] + bytes);
      forall i | 0 <= i < |bytes| {
        p[at + i] := bytes[i];
      }
      circleBuffEntry := Entry(p, at + |bytes|);
      assert before[Capacity()].buffptr == p;
      assert Entries() == before[Capacity() := circleBuffEntry];
      ReplaceEntry(before, Capacity(), circleBuffEntry);
      assert p[..at + |bytes|] == log.pending;
    }

    /** The recorded sizes are the lengths of the visible commands, and small enough for the lookup. */
    lemma {:induction false} SizesAreLengths()
      requires Valid()
      ensures circleBuff.Sizes() == Lengths(Commands())
      ensures SizesFit(circleBuff.Sizes())
      ensures Sum(circleBuff.Sizes()) == |Visible(log, Capacity())| < TWO_63
    {
      var k, shown := |log.committed|, |Commands()|;
      forall i | 0 <= i < shown
        ensures circleBuff.Sizes()[i] == |Commands()[i]| && 0 < |Commands()[i]| <= INT_MAX
      {
        assert Holds(circleBuff.history[k - shown + i], log.committed[k - shown + i]);
        assert NEWLINE in log.committed[k - shown + i];
      }
      NoWrap(circleBuff.Sizes());
      FlattenLength(Commands());
    }

    /** aesd_read. The bytes come from one command; a later call continues with the next.
        `buf` is user memory with room for `count` bytes. */
    method Read(filp: OpenFile?, buf: array?<Byte>, count: nat, k: Kernel) returns (r: Outcome)
      requires Valid()
      requires buf != null ==> count <= buf.Length && buf !in heap.live
      modifies filp, buf
      ensures Valid()
      ensures filp == null || buf == null ==> r == Fault
      ensures filp == null && buf != null ==> buf[..] == old(buf[..])
      ensures filp != null && buf == null ==> filp.fPos == old(filp.fPos)
      ensures filp != null && buf != null ==>
                var a := AnswerTo(Capacity(), Now(), old(filp.fPos), ReadOp(count, k));
                && r == a.r && filp.fPos == a.pos
                && |a.data| <= count && buf[..] == a.data + old(buf[..])[|a.data|..]
      ensures filp != null && buf != null && k.interrupted ==>
                r == Restart && filp.fPos == old(filp.fPos) && buf[..] == old(buf[..])
      ensures filp != null && buf != null && !k.interrupted ==>
                var found := ReadAt(Commands(), U64(old(filp.fPos)), count);
                && r.Done? && r.count == (if k.uncopied <= |found| then |found| - k.uncopied else 0) <= count
                && filp.fPos == S64(old(filp.fPos) + r.count)
                && buf[..] == found[..r.count] + old(buf[..])[r.count..]
    {
      if filp == null || buf == null {
        return Fault;
      }
      r := ReadOpen(filp, buf, count, k);
    }

    /** Behind the checks for NULL. */
    method ReadOpen(filp: OpenFile, buf: array<Byte>, count: nat, k: Kernel) returns (r: Outcome)
      requires Valid() && count <= buf.Length && buf !in heap.live
      modifies filp, buf
      ensures Valid()
      ensures var a := AnswerTo(Capacity(), Now(), old(filp.fPos), ReadOp(count, k));
              && r == a.r && filp.fPos == a.pos
              && |a.data| <= count && buf[..] == a.data + old(buf[..])[|a.data|..]
      ensures k.interrupted ==> r == Restart && filp.fPos == old(filp.fPos) && buf[..] == old(buf[..])
      ensures !k.interrupted ==>
                var found := ReadAt(Commands(), U64(old(filp.fPos)), count);
                && r.Done? && r.count == k.Copied(|found|) <= count
                && filp.fPos == S64(old(filp.fPos) + r.count)
                && buf[..] == found[..r.count] + old(buf[..])[r.count..]
    {
      if k.interrupted {
        Interrupted(Capacity(), Now(), filp.fPos, ReadOp(count, k), []);
        return Restart;
      }
      r := ReadLocked(filp, buf, count, k);
    }

    /** The part under the mutex. */
    method ReadLocked(filp: OpenFile, buf: array<Byte>, count: nat, k: Kernel) returns (r: Outcome)
      requires Valid() && count <= buf.Length && buf !in heap.live && !k.interrupted
      modifies filp, buf
      ensures Valid()
      ensures var found := ReadAt(Commands(), U64(old(filp.fPos)), count);
              && r.Done? && r.count == k.Copied(|found|) <= count
              && filp.fPos == S64(old(filp.fPos) + r.count)
              && buf[..] == found[..r.count] + old(buf[..])[r.count..]
      ensures AnswerTo(Capacity(), Now(), old(filp.fPos), ReadOp(count, k)) == Answer(r, buf[..r.count], filp.fPos)
    {
      var copied := Fetch(U64(filp.fPos), buf, count, k);
      ReadAnswered(Capacity(), Now(), filp.fPos, count, k, copied);
      filp.fPos := S64(filp.fPos + copied);
      r := Done(copied);
    }

    /** Lookup and copy_to_user. */
    method Fetch(pos: nat, buf: array<Byte>, count: nat, k: Kernel) returns (copied: nat)
      requires Valid() && pos < TWO_64
      requires count <= buf.Length && buf !in heap.live
      modifies buf
      ensures Valid()
      ensures var found := ReadAt(Commands(), pos, count);
              && copied == k.Copied(|found|) <= count
              && buf[..] == found[..copied] + old(buf[..])[copied..]
    {
      var slot, offset;
      slot, offset, copied := Choose(pos, count, k);
      if slot < circleBuff.entry.Length {
        CopyOut(buf, circleBuff.entry[slot].buffptr, offset, copied);
      }
    }

    /** The block to copy from, where to start, and how many bytes get through. */
    method Choose(pos: nat, count: nat, k: Kernel) returns (slot: nat, offset: nat, copied: nat)
      requires Valid() && pos < TWO_64
      ensures copied == k.Copied(|ReadAt(Commands(), pos, count)|) <= count
      ensures slot >= circleBuff.entry.Length ==> copied == 0
      ensures slot < circleBuff.entry.Length ==>
                var block := circleBuff.entry[slot].buffptr;
                && block != null && block in heap.live && offset + copied <= block.Length
                && block[offset..offset + copied] == ReadAt(Commands(), pos, count)[..copied]
    {
      slot, offset := FindByte(pos);
      if slot == circleBuff.entry.Length {
        return slot, offset, 0;
      }
      ghost var place := Locate(Lengths(Commands()), pos).value;
      var readEntry := circleBuff.entry[slot];
      copied := k.Copied(if count > readEntry.size - offset then readEntry.size - offset else count);
      SliceOfHeld(readEntry, Commands(), place, count, copied);
    }

    /** copy_to_user of `copied` bytes. */
    static method CopyOut(buf: array<Byte>, from: array<Byte>, offset: nat, copied: nat)
      requires buf != from && copied <= buf.Length && offset + copied <= from.Length
      modifies buf
      ensures buf[..] == from[offset..offset + copied] + old(buf[..])[copied..]
    {
      forall i | 0 <= i < copied {
        buf[i] := from[offset + i];
      }
    }

    /** The ring's lookup, seen from the driver: the place among the visible commands. */
    method FindByte(pos: nat) returns (slot: nat, offset: nat)
      requires Valid() && pos < TWO_64
      ensures Locate(Lengths(Commands()), pos).None? <==> slot == circleBuff.entry.Length
      ensures Locate(Lengths(Commands()), pos).Some? ==>
                var place := Locate(Lengths(Commands()), pos).value;
                && slot < circleBuff.entry.Length && offset == place.offset
                && place.index < |Commands()| && offset < |Commands()[place.index]|
                && circleBuff.entry[slot].buffptr in heap.live && Holds(circleBuff.entry[slot], Commands()[place.index])
    {
      SizesAreLengths();
      WalkIsLocate(circleBuff.Sizes(), 0, pos);
      LocateSound(circleBuff.Sizes(), pos);
      slot, offset := circleBuff.FindEntryOffset(pos);
      ghost var place := Locate(Lengths(Commands()), pos);
      if place.Some? {
        ghost var j := |log.committed| - |Commands()| + place.value.index;
        assert Holds(circleBuff.history[j], log.committed[j]);
      }
    }

    /** aesd_llseek: the size handed to the kernel's helper is summed over the slots in array order. */
    method Llseek(filp: OpenFile, offset: Loff, whence: Whence, k: Kernel) returns (r: Outcome)
      requires Valid()
      modifies filp
      ensures var a := AnswerTo(Capacity(), Now(), old(filp.fPos), SeekOp(offset, whence, k));
              r == a.r && filp.fPos == a.pos
      ensures |Visible(log, Capacity())| < TWO_63
      ensures k.interrupted ==> r == Restart && filp.fPos == old(filp.fPos)
      ensures !k.interrupted && whence.OtherWhence? ==> r == Invalid && filp.fPos == old(filp.fPos)
      ensures !k.interrupted && whence.SeekSet? ==>
                if 0 <= offset <= |Visible(log, Capacity())| then r == At(offset) && filp.fPos == offset
                else r == Invalid && filp.fPos == old(filp.fPos)
      ensures !k.interrupted && whence.SeekEnd? ==>
                var wanted := |Visible(log, Capacity())| + offset;
                if 0 <= wanted <= |Visible(log, Capacity())| then r == At(wanted) && filp.fPos == wanted
                else r == Invalid && filp.fPos == old(filp.fPos)
      ensures !k.interrupted && whence.SeekCur? && offset == 0 ==>
                r == At(old(filp.fPos)) && filp.fPos == old(filp.fPos)
      ensures !k.interrupted && whence.SeekCur? && offset != 0 ==>
                var sum := old(filp.fPos) + offset;
                var wanted := if sum < -TWO_63 then sum + TWO_64 else sum;
                if 0 <= wanted <= |Visible(log, Capacity())| then r == At(wanted) && filp.fPos == wanted
                else r == Invalid && filp.fPos == old(filp.fPos)
    {
      SizesAreLengths();
      if k.interrupted {
        Interrupted(Capacity(), Now(), filp.fPos, SeekOp(offset, whence, k), []);
        return Restart;
      }
      SeekAnswered(Capacity(), Now(), filp.fPos, offset, whence, k);
      r := SeekLocked(filp, offset, whence, k);
    }

    /** The part under the mutex. */
    method SeekLocked(filp: OpenFile, offset: Loff, whence: Whence, k: Kernel) returns (r: Outcome)
      requires Valid() && !k.interrupted
      modifies filp
      ensures var a := AnswerTo(Capacity(), Now(), old(filp.fPos), SeekOp(offset, whence, k));
              r == a.r && filp.fPos == a.pos
    {
      SizesAreLengths();
      var totalBufferSize := circleBuff.TotalSize();
      var seekPosition := SeekWithin(filp.fPos, offset, whence, totalBufferSize);
      if seekPosition.None? {
        return Invalid;
      }
      filp.fPos := seekPosition.value;
      r := At(seekPosition.value);
    }

    /** aesd_adjust_file_offset. The pending block, if any, lies at `address`. */
    method AdjustFileOffset(filp: OpenFile, writeCmd: nat, writeCmdOffset: nat, address: nat, k: Kernel)
      returns (r: Outcome)
      requires writeCmd < TWO_32 && writeCmdOffset < TWO_32 && BlockAddress(address)
      modifies filp
      ensures var target := Coded(SlotSizes(), BehindTheSlots(Now(), address), old(filp.fPos), writeCmd, writeCmdOffset);
              && r == (if k.interrupted then Restart else if target.None? then Invalid else Done(0))
              && filp.fPos == if r.Done? then target.value else old(filp.fPos)
      ensures writeCmd == Capacity() ==> (r.Done? <==> circleBuffEntry.buffptr != null && !k.interrupted)
      ensures k.interrupted ==> r == Restart && filp.fPos == old(filp.fPos)
      ensures !k.interrupted && writeCmd > Capacity() ==> r == Invalid && filp.fPos == old(filp.fPos)
      ensures !k.interrupted && writeCmd < Capacity() ==>
                if writeCmdOffset < SlotSizes()[writeCmd]
                then r == Done(0) && filp.fPos == S64(old(filp.fPos) + Sum(SlotSizes()[..writeCmd]) + writeCmdOffset)
                else r == Invalid && filp.fPos == old(filp.fPos)
      ensures !k.interrupted && writeCmd == Capacity() ==>
                if circleBuffEntry.buffptr != null
                then r == Done(0) && filp.fPos == S64(old(filp.fPos) + Sum(SlotSizes()) + writeCmdOffset)
                else r == Invalid && filp.fPos == old(filp.fPos)
    {
      assert SlotSizes()[..circleBuff.entry.Length] == SlotSizes();
      if k.interrupted {
        return Restart;
      }
      var position := 0;
      while position < circleBuff.entry.Length
        invariant 0 <= position <= circleBuff.entry.Length
      {
        position := position + 1;
      }
      if writeCmd > position
         || writeCmdOffset >= (if writeCmd < circleBuff.entry.Length then circleBuff.entry[writeCmd].size
                               else if circleBuffEntry.buffptr == null then 0 else address)
         || writeCmd > circleBuff.entry.Length
      {
        return Invalid;
      }
      MoveOn(filp, writeCmd, writeCmdOffset);
      r := Done(0);
    }

    /** An accepted request moves the position on. */
    method MoveOn(filp: OpenFile, writeCmd: nat, writeCmdOffset: nat)
      requires writeCmd <= circleBuff.entry.Length
      modifies filp
      ensures filp.fPos == S64(old(filp.fPos) + Sum(SlotSizes()[..writeCmd]) + writeCmdOffset)
    {
      if writeCmd == 0 {
        filp.fPos := S64(filp.fPos + writeCmdOffset);
      } else {
        AdvanceBySlots(filp, writeCmd);
        S64Twice(old(filp.fPos) + Sum(SlotSizes()[..writeCmd]), writeCmdOffset);
        filp.fPos := S64(filp.fPos + writeCmdOffset);
      }
    }

    /** The summing loop of aesd_adjust_file_offset. */
    method AdvanceBySlots(filp: OpenFile, writeCmd: nat)
      requires writeCmd <= circleBuff.entry.Length
      modifies filp
      ensures filp.fPos == S64(old(filp.fPos) + Sum(SlotSizes()[..writeCmd]))
    {
      ghost var sizes := SlotSizes();
      for position := 0 to writeCmd
        invariant filp.fPos == S64(old(filp.fPos) + Sum(sizes[..position]))
      {
        SeekOn(old(filp.fPos), sizes, position);
        filp.fPos := S64(filp.fPos + circleBuff.entry[position].size);
      }
    }

    /** The slot sizes are those of a ring to which commands of the committed lengths were added. */
    lemma {:induction false} SizesOfRing()
      requires Valid()
      ensures RingOf(Image(SlotSizes(), circleBuff.inOffs, circleBuff.outOffs, circleBuff.full),
                     Capacity(), Lengths(log.committed))
      ensures Recent(Lengths(log.committed), Capacity()) == Lengths(Commands())
      ensures Sum(Lengths(Commands())) < TWO_63
    {
      SizesAreLengths();
      RecentLengths(log.committed, Capacity());
      HistorySizes();
      SizesRecord(circleBuff.Snapshot(), circleBuff.history, Lengths(log.committed));
    }

    lemma {:induction false} HistorySizes()
      requires Held()
      ensures |circleBuff.history| == |Lengths(log.committed)|
      ensures forall j :: 0 <= j < |log.committed| && |log.committed| - Capacity() <= j ==>
                Lengths(log.committed)[j] == circleBuff.history[j].size
    {
      forall j | 0 <= j < |log.committed| && |log.committed| - Capacity() <= j
        ensures Lengths(log.committed)[j] == circleBuff.history[j].size
      {
        assert Holds(circleBuff.history[j], log.committed[j]);
      }
    }

    /** The slots are those the call semantics speaks of. */
    lemma {:induction false} SlotsAreOf()
      requires Valid()
      ensures SlotSizes() == SlotsOf(Capacity(), log.committed)
    {
      SizesOfRing();
      AddingRecords(Capacity(), Lengths(log.committed), 0,
                    Image(SlotSizes(), circleBuff.inOffs, circleBuff.outOffs, circleBuff.full));
    }

    /** The commands lie in the slots from 0 on as far as sizes tell. */
    ghost predicate InPlace()
      reads this, circleBuff, circleBuff.entry
    {
      |Commands()| <= |SlotSizes()| && SlotSizes()[..|Commands()|] == Lengths(Commands())
    }

    /** With fewer commands than slots, or a multiple, they do. */
    lemma {:induction false} InPlaceUnrotated()
      requires Valid()
      requires |log.committed| < Capacity() || |log.committed| % Capacity() == 0
      ensures InPlace()
    {
      SizesOfRing();
      UnrotatedInPlace(Image(SlotSizes(), circleBuff.inOffs, circleBuff.outOffs, circleBuff.full),
                       Capacity(), Lengths(log.committed));
    }

    /** With the sizes in place, a seek from position 0 lands on the documented byte, and
        reading there starts with that byte of that command. */
    lemma {:induction false} SeekLands(cmd: nat, offset: nat, beyond: nat)
      requires Valid() && cmd < Capacity() && InPlace()
      ensures var target := Coded(SlotSizes(), beyond, 0, cmd, offset);
              && (target.Some? <==> cmd < |Commands()| && offset < |Commands()[cmd]|)
              && (target.Some? ==> target.value >= 0 && Locate(Lengths(Commands()), target.value) == Some(Place(cmd, offset)))
    {
      SizesOfRing();
      AgreesInPlace(Image(SlotSizes(), circleBuff.inOffs, circleBuff.outOffs, circleBuff.full),
                    Capacity(), Lengths(log.committed), beyond, cmd, offset);
      SeekThenLocate(Lengths(Commands()), cmd, offset);
    }

    ghost function SlotSizes(): seq<nat>
      reads this, circleBuff, circleBuff.entry
    {
      EntrySizes(circleBuff.entry[..])
    }

    /** aesd_cleanup_module: the pending block and every slot's block go back, each once. */
    method Cleanup()
      requires Valid()
      modifies heap
      ensures heap.live == leaked
    {
      ghost var es, n := Entries(), Capacity();
      assert es[n] == circleBuffEntry;
      assert circleBuffEntry.buffptr != null ==> circleBuffEntry.buffptr in Blocks(es);
      heap.Kfree(circleBuffEntry.buffptr);
      ghost var gone := {circleBuffEntry.buffptr} - {null};
      BlocksAppend([], circleBuffEntry);
      assert [] + [circleBuffEntry] == [circleBuffEntry] + es[..0];
      for index := 0 to circleBuff.entry.Length
        invariant gone == Blocks([circleBuffEntry] + es[..index])
        invariant heap.live == Blocks(es) + leaked - gone
      {
        var entry := circleBuff.entry[index];
        assert es[index] == entry && es[..index + 1] == es[..index] + [entry];
        StillLive(es, index);
        if entry.buffptr != null {
          heap.Kfree(entry.buffptr);
        }
        gone := gone + ({entry.buffptr} - {null});
        BlocksAppend([circleBuffEntry] + es[..index], entry);
        assert [circleBuffEntry] + es[..index] + [entry] == [circleBuffEntry] + es[..index + 1];
      }
      AllGone(es);
    }
  }

  lemma {:induction false} BlocksAppend(es: seq<Entry>, e: Entry)
    ensures Blocks(es + [e]) == Blocks(es) + ({e.buffptr} - {null})
  {
    var es' := es + [e];
    assert es'[|es|] == e;
    forall i | 0 <= i < |es|
      ensures es[i].buffptr in Blocks(es') || es[i].buffptr == null
    {
      assert es'[i] == es[i];
    }
  }

  /** Having freed the last entry's block and those before `index`, the block at `index` is still to be freed. */
  lemma {:induction false} StillLive(es: seq<Entry>, index: nat)
    requires index + 1 < |es| && Unshared(es)
    ensures es[index].buffptr != null ==>
              es[index].buffptr in Blocks(es) - Blocks([es[|es| - 1]] + es[..index])
  {
    var freed := [es[|es| - 1]] + es[..index];
    forall i | 0 <= i < |freed|
      ensures freed[i].buffptr != null ==> freed[i].buffptr != es[index].buffptr
    {
      if i > 0 {
        assert freed[i] == es[i - 1];
      }
    }
  }

  lemma {:induction false} AllGone(es: seq<Entry>)
    requires es != []
    ensures Blocks([es[|es| - 1]] + es[..|es| - 1]) == Blocks(es)
  {
    var last := |es| - 1;
    BlocksAppend(es[..last], es[last]);
    assert es[..last] + [es[last]] == es;
    var turned := [es[last]] + es[..last];
    assert turned[0] == es[last];
    forall i | 0 <= i < last
      ensures turned[i + 1] == es[i]
    {
    }
    forall b | b in Blocks(es)
      ensures b in Blocks(turned)
    {
      var i :| 0 <= i < |es| && es[i].buffptr == b;
      if i < last {
        assert turned[i + 1].buffptr == b;
      }
    }
  }

  /** The device as the module sets it up. */
  method InitModule() returns (dev: Device)
    ensures fresh(dev) && dev.Valid() && dev.Tidy()
    ensures dev.log == EMPTY && dev.Capacity() == 10
  {
    dev := new Device(MAX_WRITE_OPERATIONS);
  }

  lemma {:induction false} SeekOn(start: Loff, sizes: seq<nat>, position: nat)
    requires position < |sizes|
    ensures S64(S64(start + Sum(sizes[..position])) + sizes[position]) == S64(start + Sum(sizes[..position + 1]))
  {
    SumNext(sizes, position);
    S64Twice(start + Sum(sizes[..position]), sizes[position]);
  }

  lemma {:induction false} S64Twice(a: int, b: int)
    ensures S64(S64(a) + b) == S64(a + b)
  {
  }
}
