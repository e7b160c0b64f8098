/** The SEEKTO ioctl: what it is documented to do, what it does, and exactly when these agree. */
module Seek {
  import opened Machine
  import opened Sequences
  import opened Lookup
  import opened CircularBuffer

  /** Documented: byte `offset` of the zero-referenced command `cmd`, counted from the oldest. */
  function Documented(sizes: seq<nat>, cmd: nat, offset: nat): Option<Loff>
    requires Sum(sizes) < TWO_63
  {
    if cmd < |sizes| && offset < sizes[cmd] then
      SumTake(sizes, cmd, cmd + 1);
      Some(Sum(sizes[..cmd]) + offset)
    else None
  }

  /** Coded: sizes are taken slot by slot from slot 0, and the sum is added to the
      current position. The scan for the last slot leaves `position` at the number of
      slots, so that number itself passes as a command; `beyond` is what the size field
      one slot past the array reads as. */
  function Coded(slots: seq<nat>, beyond: nat, pos: Loff, cmd: nat, offset: nat): Option<Loff> {
    if cmd > |slots| || offset >= (if cmd < |slots| then slots[cmd] else beyond) then None
    else Some(S64(pos + Sum(slots[..cmd]) + offset))
  }

  ghost predicate SizesFit(sizes: seq<nat>) {
    forall i :: 0 <= i < |sizes| ==> 0 < sizes[i] <= INT_MAX
  }

  /** A ring of `n` slots after additions of these sizes. */
  ghost predicate RingOf(img: Image<nat>, n: nat, history: seq<nat>) {
    && 0 < n <= MAX_CAPACITY && |img.entry| == n
    && SizesFit(Recent(history, n)) && Records(img, history, 0)
  }

  lemma {:induction false} RecentFits(n: nat, history: seq<nat>)
    requires n <= MAX_CAPACITY && SizesFit(Recent(history, n))
    ensures Sum(Recent(history, n)) < TWO_63
  {
    NoWrap(Recent(history, n));
  }

  ghost predicate AgreesOn(img: Image<nat>, n: nat, history: seq<nat>, beyond: nat, pos: Loff, cmd: nat, offset: nat)
    requires RingOf(img, n, history)
  {
    RecentFits(n, history);
    Coded(img.entry, beyond, pos, cmd, offset) == Documented(Recent(history, n), cmd, offset)
  }

  /** The commands, oldest first, lie in the slots from 0 on, as far as their sizes tell. */
  ghost predicate SizesInPlace(img: Image<nat>, n: nat, history: seq<nat>)
    requires RingOf(img, n, history)
  {
    RecordsWellFormed(img, history, 0);
    img.entry[..|Recent(history, n)|] == Recent(history, n)
  }

  /** From 0, with the sizes in place, every request below `n` ends where documented. */
  lemma {:induction false} AgreesInPlace(img: Image<nat>, n: nat, history: seq<nat>, beyond: nat, cmd: nat, offset: nat)
    requires RingOf(img, n, history) && SizesInPlace(img, n, history) && cmd < n
    ensures AgreesOn(img, n, history, beyond, 0, cmd, offset)
  {
    RecentFits(n, history);
    RecordsWellFormed(img, history, 0);
    var recent := Recent(history, n);
    if cmd < |recent| {
      assert img.entry[..cmd] == recent[..cmd];
      assert img.entry[cmd] == img.entry[..|recent|][cmd];
      if offset < recent[cmd] {
        SumTake(recent, cmd, cmd + 1);
      }
    }
  }

  /** A request for which the slot and the command of that number differ in size goes wrong. */
  lemma {:induction false} DisagreesOutOfPlace(img: Image<nat>, n: nat, history: seq<nat>, beyond: nat, pos: Loff, cmd: nat)
    requires RingOf(img, n, history) && cmd < |Recent(history, n)|
    requires img.entry[cmd] != Recent(history, n)[cmd]
    ensures exists offset: nat :: !AgreesOn(img, n, history, beyond, pos, cmd, offset)
  {
    RecentFits(n, history);
    var slot, wanted := img.entry[cmd], Recent(history, n)[cmd];
    var offset := if slot < wanted then slot else wanted;
    assert !AgreesOn(img, n, history, beyond, pos, cmd, offset);
  }

  ghost predicate AgreesAlways(img: Image<nat>, n: nat, history: seq<nat>, beyond: nat, pos: Loff)
    requires RingOf(img, n, history)
  {
    forall cmd: nat, offset: nat | cmd < n :: AgreesOn(img, n, history, beyond, pos, cmd, offset)
  }

  /** On a given ring the ioctl does what is documented, for every command below `n` and every
      offset, exactly when no command was ever committed, or the position is 0 and the
      slots from 0 on have the sizes of the commands from the oldest on. */
  lemma {:induction false} SeekExactOnRing(img: Image<nat>, n: nat, history: seq<nat>, beyond: nat, pos: Loff)
    requires RingOf(img, n, history)
    ensures AgreesAlways(img, n, history, beyond, pos) <==>
            history == [] || (pos == 0 && SizesInPlace(img, n, history))
  {
    RecentFits(n, history);
    RecordsWellFormed(img, history, 0);
    var recent := Recent(history, n);
    if history != [] && pos == 0 && SizesInPlace(img, n, history) {
      forall cmd: nat, offset: nat | cmd < n
        ensures AgreesOn(img, n, history, beyond, pos, cmd, offset)
      {
        AgreesInPlace(img, n, history, beyond, cmd, offset);
      }
    }
    if AgreesAlways(img, n, history, beyond, pos) && history != [] {
      assert AgreesOn(img, n, history, beyond, pos, 0, 0);
      assert img.entry[..0] == [] && recent[..0] == [];
      assert Documented(recent, 0, 0) == Some(0);
      forall cmd: nat | cmd < |recent|
        ensures img.entry[cmd] == recent[cmd]
      {
        if img.entry[cmd] != recent[cmd] {
          DisagreesOutOfPlace(img, n, history, beyond, pos, cmd);
        }
      }
    }
  }

  /** An unrotated ring has its sizes in place. */
  lemma {:induction false} UnrotatedInPlace(img: Image<nat>, n: nat, history: seq<nat>)
    requires RingOf(img, n, history)
    requires |history| < n || |history| % n == 0
    ensures SizesInPlace(img, n, history)
  {
    SlotIsMod(|history|, n);
    RecordsWellFormed(img, history, 0);
    LogicalIsRecent(img, history, 0);
    PhysicalOrder(img, history, 0);
  }

  /** A rotated ring need not. */
  lemma {:induction false} RotatedOutOfPlace(n: nat, k: nat) returns (img: Image<nat>, history: seq<nat>)
    requires 0 < n <= MAX_CAPACITY && k >= n && k % n != 0
    ensures |history| == k && RingOf(img, n, history) && !SizesInPlace(img, n, history)
  {
    SlotIsMod(k, n);
    history := seq(k, i => if i == k - n then 2 else 1);
    img := SomeRing(n, history, 0);
    LogicalIsRecent(img, history, 0);
    PhysicalOrder(img, history, 0);
    var recent := Recent(history, n);
    assert recent[0] == 2;
    assert img.entry[0] == recent[n - img.outOffs];
    assert img.entry[..|recent|][0] == 1;
  }

  /** Whatever the sizes of the `k` commands committed so far, the ioctl does what is documented
      exactly when there was none, or the position is 0 and `k` is below `n` or a multiple of it. */
  lemma {:induction false} SeekExact(n: nat, k: nat, beyond: nat, pos: Loff)
    requires 0 < n <= MAX_CAPACITY
    ensures (forall img, history | |history| == k && RingOf(img, n, history) ::
               AgreesAlways(img, n, history, beyond, pos)) <==>
            k == 0 || (pos == 0 && (k < n || k % n == 0))
  {
    if k == 0 || (pos == 0 && (k < n || k % n == 0)) {
      forall img, history | |history| == k && RingOf(img, n, history)
        ensures AgreesAlways(img, n, history, beyond, pos)
      {
        SeekExactOnRing(img, n, history, beyond, pos);
        if k > 0 {
          UnrotatedInPlace(img, n, history);
        }
      }
    } else if pos == 0 {
      var img, history := RotatedOutOfPlace(n, k);
      SeekExactOnRing(img, n, history, beyond, pos);
    } else {
      var history: seq<nat> := seq(k, _ => 1);
      var img := SomeRing(n, history, 0);
      SeekExactOnRing(img, n, history, beyond, pos);
    }
  }

  /** Where both agree, seek and lookup are inverse: a seek succeeds exactly at the places
      the ring holds, and looking the new position up gives back the place asked for. */
  lemma {:induction false} SeekThenLocate(sizes: seq<nat>, cmd: nat, offset: nat)
    requires Sum(sizes) < TWO_63
    ensures Documented(sizes, cmd, offset).Some? <==> cmd < |sizes| && offset < sizes[cmd]
    ensures forall pos: nat | pos < TWO_63 ::
              Documented(sizes, cmd, offset) == Some(pos) <==> Locate(sizes, pos) == Some(Place(cmd, offset))
  {
    forall pos: nat | pos < TWO_63
      ensures Documented(sizes, cmd, offset) == Some(pos) <==> Locate(sizes, pos) == Some(Place(cmd, offset))
    {
      LocateExact(sizes, pos, Place(cmd, offset));
    }
  }
}
