/** The circular buffer of aesd-circular-buffer.c. */
module CircularBuffer {
  import opened Machine
  import opened Sequences
  import opened Lookup

  /** Slots the driver is built with; everything below holds for 1 to 255 slots. */
  const MAX_WRITE_OPERATIONS: nat := 10
  const MAX_CAPACITY: nat := 255

  datatype Entry = Entry(buffptr: array?<Byte>, size: nat)

  const ZERO_ENTRY := Entry(null, 0)

  /** A snapshot of the fields of the ring. */
  datatype Image<E> = Image(entry: seq<E>, inOffs: nat, outOffs: nat, full: bool) {

    ghost predicate WellFormed() {
      |entry| > 0 && inOffs < |entry| && outOffs < |entry|
    }

    /** How many slots hold a command. */
    function Count(): nat
      requires WellFormed()
    {
      if full then |entry| else if outOffs <= inOffs then inOffs - outOffs else inOffs + |entry| - outOffs
    }

    /** The slot of the `j`-th oldest command. */
    function SlotOf(j: nat): (slot: nat)
      requires WellFormed() && j <= |entry|
      ensures slot < |entry|
    {
      if outOffs + j < |entry| then outOffs + j else outOffs + j - |entry|
    }

    /** The commands as a reader meets them: from `outOffs` on, wrapping around. */
    function Logical(): (s: seq<E>)
      requires WellFormed()
      ensures |s| == Count()
    {
      seq(Count(), j requires 0 <= j < Count() => entry[SlotOf(j)])
    }
  }

  /** The slot the `j`-th addition ever made goes to: `j` modulo `n`, see `SlotIsMod`. */
  function SlotFor(j: nat, n: nat): (slot: nat)
    requires n > 0
    ensures slot < n
  {
    if j < n then j else SlotFor(j - n, n)
  }

  /** Closed form: what the fields are after `history` was added, in order, to an empty ring. */
  ghost predicate Records<E>(img: Image<E>, history: seq<E>, zero: E) {
    var n, k := |img.entry|, |history|;
    && n > 0
    && img.inOffs == SlotFor(k, n)
    && (img.full <==> k >= n)
    && img.outOffs == (if k >= n then SlotFor(k, n) else 0)
    && (forall j {:trigger SlotFor(j, n)} :: 0 <= j < k && k - n <= j ==> img.entry[SlotFor(j, n)] == history[j])
    && (forall i :: k <= i < n ==> img.entry[i] == zero)
  }

  // ----- modular slot arithmetic

  lemma {:induction false} SlotIsMod(j: nat, n: nat)
    requires n > 0
    ensures SlotFor(j, n) == j % n
  {
    if j >= n {
      SlotIsMod(j - n, n);
      assert (j - n) % n == j % n by { ModShift(j - n, n); }
    }
  }

  lemma {:induction false} ModShift(j: nat, n: nat)
    requires n > 0
    ensures (j + n) % n == j % n
  {
    var q, r := j / n, j % n;
    var q', r' := (j + n) / n, (j + n) % n;
    assert q' * n + r' == (q + 1) * n + r;
    if q' <= q {
      MulMono(q' + 1, q + 1, n);
    } else if q + 1 < q' {
      MulMono(q + 2, q', n);
    }
  }

  lemma {:induction false} MulMono(a: nat, b: nat, n: nat)
    requires a <= b
    ensures a * n <= b * n
  {
  }

  /** Advancing a slot index by one, as the C code writes it. */
  lemma {:induction false} NextIndex(slot: nat, n: nat)
    requires slot < n
    ensures (slot + 1) % n == if slot + 1 < n then slot + 1 else 0
  {
    if slot + 1 == n {
      ModShift(0, n);
    }
  }

  /** Moving `d` slots on, with at most one wrap. */
  lemma {:induction false} SlotStep(j: nat, d: nat, n: nat)
    requires n > 0 && d <= n
    ensures SlotFor(j + d, n) == if SlotFor(j, n) + d < n then SlotFor(j, n) + d else SlotFor(j, n) + d - n
  {
    if j >= n {
      SlotStep(j - n, d, n);
    }
  }

  /** Fewer than `n` apart, two additions never share a slot. */
  lemma {:induction false} SlotDistinct(i: nat, j: nat, n: nat)
    requires i < j < i + n
    ensures SlotFor(i, n) != SlotFor(j, n)
  {
    SlotStep(i, j - i, n);
  }

  // ----- what the closed form says

  lemma {:induction false} RecordsWellFormed<E>(img: Image<E>, history: seq<E>, zero: E)
    requires Records(img, history, zero)
    ensures img.WellFormed()
    ensures img.Count() == |Recent(history, |img.entry|)|
    ensures img.full <==> |history| >= |img.entry|
    ensures if img.full then img.outOffs == img.inOffs else img.outOffs == 0 && img.inOffs == |history|
  {
  }

  /** The command the oldest-first walk meets in place `j`, and its slot. */
  lemma {:induction false} SlotHolds<E>(img: Image<E>, history: seq<E>, zero: E, j: nat)
    requires Records(img, history, zero)
    requires j < |Recent(history, |img.entry|)|
    ensures img.WellFormed()
    ensures img.SlotOf(j) == SlotFor(|history| - |Recent(history, |img.entry|)| + j, |img.entry|)
    ensures img.entry[img.SlotOf(j)] == Recent(history, |img.entry|)[j]
  {
    RecordsWellFormed(img, history, zero);
    var n, k := |img.entry|, |history|;
    if k >= n {
      SlotOfRotated(img, history, zero, j);
      assert Recent(history, n)[j] == history[k - n + j];
      assert img.entry[SlotFor(k - n + j, n)] == history[k - n + j];
    } else {
      assert img.SlotOf(j) == j == SlotFor(j, n);
    }
  }

  lemma {:induction false} SlotOfRotated<E>(img: Image<E>, history: seq<E>, zero: E, j: nat)
    requires Records(img, history, zero) && |history| >= |img.entry| && j < |img.entry|
    ensures img.WellFormed() && img.SlotOf(j) == SlotFor(|history| - |img.entry| + j, |img.entry|)
  {
    RecordsWellFormed(img, history, zero);
    var n, k := |img.entry|, |history|;
    SlotStep(k - n, n, n);
    SlotStep(k - n, j, n);
  }

  /** Read oldest first, the ring holds exactly the last `n` commands ever added. */
  lemma {:induction false} LogicalIsRecent<E>(img: Image<E>, history: seq<E>, zero: E)
    requires Records(img, history, zero)
    ensures img.WellFormed()
    ensures img.Logical() == Recent(history, |img.entry|)
  {
    RecordsWellFormed(img, history, zero);
    forall j | 0 <= j < img.Count()
      ensures img.Logical()[j] == Recent(history, |img.entry|)[j]
    {
      SlotHolds(img, history, zero, j);
    }
  }

  /** The fields are a function of the history: the closed form leaves no freedom. */
  lemma {:induction false} RecordsUnique<E>(a: Image<E>, b: Image<E>, history: seq<E>, zero: E)
    requires |a.entry| == |b.entry|
    requires Records(a, history, zero) && Records(b, history, zero)
    ensures a == b
  {
    var n, k := |a.entry|, |history|;
    forall i | 0 <= i < n
      ensures a.entry[i] == b.entry[i]
    {
      var j := WriterOf(n, k, i);
    }
    assert a.entry == b.entry;
  }

  /** The last addition that went to slot `i`. */
  lemma {:induction false} WriterOf(n: nat, k: nat, i: nat) returns (j: int)
    requires i < n
    ensures k <= i ==> j == i
    ensures i < k ==> 0 <= j < k && k - n <= j && SlotFor(j, n) == i
  {
    if k <= i || SlotFor(k - 1, n) == i {
      j := if k <= i then i else k - 1;
    } else {
      j := WriterOf(n, k - 1, i);
      if j == k - 1 - n {
        SlotStep(j, n, n);
      }
    }
  }

  /** One addition: overwrite slot `inOffs`, advance. */
  lemma {:induction false} RecordsStep<E>(img: Image<E>, history: seq<E>, zero: E, e: E)
    requires Records(img, history, zero)
    ensures img.WellFormed()
    ensures Records(AddTo(img, e), history + [e], zero)
    ensures img.entry[img.inOffs] == if |history| < |img.entry| then zero else history[|history| - |img.entry|]
  {
    RecordsWellFormed(img, history, zero);
    var n, k := |img.entry|, |history|;
    SlotStep(k, 1, n);
    NextIndex(img.inOffs, n);
    if k >= n {
      SlotStep(k - n, n, n);
      assert img.entry[SlotFor(k - n, n)] == history[k - n];
    }
    var entry := img.entry[img.inOffs := e];
    forall j | 0 <= j < k + 1 && k + 1 - n <= j
      ensures entry[SlotFor(j, n)] == (history + [e])[j]
    {
      if j < k {
        assert img.entry[SlotFor(j, n)] == history[j];
        SlotDistinct(j, k, n);
      }
    }
  }

  /** The fields one addition leaves behind. */
  function AddTo<E>(img: Image<E>, e: E): Image<E>
    requires img.WellFormed()
  {
    var into := (img.inOffs + 1) % |img.entry|;
    var from := if img.full then (img.outOffs + 1) % |img.entry| else img.outOffs;
    Image(img.entry[img.inOffs := e], into, from, into == from)
  }

  /** The fields after adding `history`, one entry after the other, to an empty ring of `n` slots. */
  ghost function ImageOf<E>(n: nat, history: seq<E>, zero: E): (img: Image<E>)
    requires n > 0
    ensures img.WellFormed() && |img.entry| == n
    decreases |history|
  {
    if history == [] then Image(seq(n, _ => zero), 0, 0, false)
    else AddTo(ImageOf(n, history[..|history| - 1], zero), history[|history| - 1])
  }

  /** After any run of additions the fields have the closed form, and only those fields do. */
  lemma {:induction false} AddingRecords<E>(n: nat, history: seq<E>, zero: E, img: Image<E>)
    requires n > 0 && |img.entry| == n
    ensures Records(img, history, zero) <==> img == ImageOf(n, history, zero)
    decreases |history|
  {
    var run := ImageOf(n, history, zero);
    if history != [] {
      var before, last := history[..|history| - 1], history[|history| - 1];
      AddingRecords(n, before, zero, ImageOf(n, before, zero));
      RecordsStep(ImageOf(n, before, zero), before, zero, last);
      assert before + [last] == history;
    }
    assert Records(run, history, zero);
    if Records(img, history, zero) {
      RecordsUnique(img, run, history, zero);
    }
  }

  lemma {:induction false} SomeRing<E>(n: nat, history: seq<E>, zero: E) returns (img: Image<E>)
    requires n > 0
    ensures |img.entry| == n && Records(img, history, zero)
  {
    img := ImageOf(n, history, zero);
    AddingRecords(n, history, zero, img);
  }

  // ----- rotation invariance

  ghost function EntrySizes(es: seq<Entry>): (r: seq<nat>)
    ensures |r| == |es|
    ensures forall i :: 0 <= i < |r| ==> r[i] == es[i].size
  {
    if es == [] then [] else [es[0].size] + EntrySizes(es[1..])
  }

  /** A full ring is its slots, rotated; a ring not yet full starts in slot 0. */
  lemma {:induction false} PhysicalOrder<E>(img: Image<E>, history: seq<E>, zero: E)
    requires Records(img, history, zero)
    ensures img.WellFormed()
    ensures img.full ==> img.Logical() == img.entry[img.outOffs..] + img.entry[..img.outOffs]
    ensures !img.full ==> img.outOffs == 0 && img.Logical() == img.entry[..img.inOffs]
  {
    RecordsWellFormed(img, history, zero);
    var n := |img.entry|;
    forall j | 0 <= j < img.Count()
      ensures img.SlotOf(j) == if img.outOffs + j < n then img.outOffs + j else img.outOffs + j - n
    {
    }
  }

  /** Summing the sizes of all slots in array order gives the length of the visible file. */
  lemma {:induction false} RotationKeepsSize(img: Image<Entry>, history: seq<Entry>)
    requires Records(img, history, ZERO_ENTRY)
    ensures Sum(EntrySizes(img.entry)) == Sum(EntrySizes(Recent(history, |img.entry|)))
  {
    LogicalIsRecent(img, history, ZERO_ENTRY);
    PhysicalOrder(img, history, ZERO_ENTRY);
    RecordsWellFormed(img, history, ZERO_ENTRY);
    SizesRotate(img.entry, if img.full then img.outOffs else img.inOffs, img.full);
  }

  lemma {:induction false} SizesRotate(es: seq<Entry>, cut: nat, full: bool)
    requires cut <= |es|
    requires !full ==> forall i :: cut <= i < |es| ==> es[i] == ZERO_ENTRY
    ensures Sum(EntrySizes(es)) == Sum(EntrySizes(if full then es[cut..] + es[..cut] else es[..cut]))
  {
    assert es == es[..cut] + es[cut..];
    SizesAppend(es[..cut], es[cut..]);
    if full {
      SizesAppend(es[cut..], es[..cut]);
    } else {
      SumZero(EntrySizes(es[cut..]));
    }
  }

  lemma {:induction false} SumFirst(sizes: seq<nat>)
    requires sizes != []
    ensures Sum(sizes) == sizes[0] + Sum(sizes[1..])
  {
  }

  lemma {:induction false} SizesAppend(a: seq<Entry>, b: seq<Entry>)
    ensures Sum(EntrySizes(a + b)) == Sum(EntrySizes(a)) + Sum(EntrySizes(b))
  {
    if a == [] {
      assert a + b == b;
    } else {
      assert (a + b)[1..] == a[1..] + b && (a + b)[0] == a[0];
      SizesAppend(a[1..], b);
      SumFirst(EntrySizes(a));
      SumFirst(EntrySizes(a + b));
    }
  }

  /** A ring of entries is, size by size, a ring of sizes. */
  lemma {:induction false} SizesRecord(img: Image<Entry>, history: seq<Entry>, sizes: seq<nat>)
    requires Records(img, history, ZERO_ENTRY) && |sizes| == |history|
    requires forall j :: 0 <= j < |history| && |history| - |img.entry| <= j ==> sizes[j] == history[j].size
    ensures Records(Image(EntrySizes(img.entry), img.inOffs, img.outOffs, img.full), sizes, 0)
  {
    var n := |img.entry|;
    forall j {:trigger SlotFor(j, n)} | 0 <= j < |history| && |history| - n <= j
      ensures EntrySizes(img.entry)[SlotFor(j, n)] == sizes[j]
    {
      assert img.entry[SlotFor(j, n)] == history[j];
    }
  }

  // ----- the structure itself

  class CircularBuffer {
    const entry: array<Entry>
    var inOffs: nat
    var outOffs: nat
    var full: bool

    /** Every entry added since the last initialisation, oldest first. */
    ghost var history: seq<Entry>

    ghost function Snapshot(): Image<Entry>
      reads this, entry
    {
      Image(entry[..], inOffs, outOffs, full)
    }

    ghost predicate Valid()
      reads this, entry
    {
      entry.Length <= MAX_CAPACITY && Records(Snapshot(), history, ZERO_ENTRY)
    }

    /** The sizes of the commands held, oldest first. */
    ghost function Sizes(): seq<nat>
      reads this, entry
    {
      EntrySizes(Recent(history, entry.Length))
    }

    constructor (capacity: nat)
      requires 1 <= capacity <= MAX_CAPACITY
      ensures Valid() && history == [] && entry.Length == capacity
      ensures fresh(entry)
    {
      entry := new Entry[capacity](_ => ZERO_ENTRY);
      inOffs, outOffs, full := 0, 0, false;
      history := [];
    }

    /** Back to the empty ring, from any contents. */
    method Init()
      requires 1 <= entry.Length <= MAX_CAPACITY
      modifies this, entry
      ensures Valid() && history == []
      ensures forall i :: 0 <= i < entry.Length ==> entry[i] == ZERO_ENTRY
    {
      forall i | 0 <= i < entry.Length {
        entry[i] := ZERO_ENTRY;
      }
      inOffs, outOffs, full := 0, 0, false;
      history := [];
    }

    /** Adds unconditionally; hands back the pointer of the entry pushed out, if any. */
    method AddEntry(addEntry: Entry) returns (ptr: array?<Byte>)
      requires Valid()
      modifies this, entry
      ensures Valid() && history == old(history) + [addEntry]
      ensures ptr == if |old(history)| < entry.Length then null
                     else old(history)[|old(history)| - entry.Length].buffptr
      ensures entry[..] == old(entry[..])[old(inOffs) := addEntry]
      ensures ptr == old(entry[..][inOffs].buffptr)
    {
      RecordsStep(Snapshot(), history, ZERO_ENTRY, addEntry);
      ptr := entry[inOffs].buffptr;
      entry[inOffs] := addEntry;
      if full {
        outOffs := (outOffs + 1) % entry.Length;
      }
      inOffs := (inOffs + 1) % entry.Length;
      full := inOffs == outOffs;
      history := history + [addEntry];
    }

    /** The slot and offset of flat position `charOffset`; the slot past the last one
        stands for NULL. The walk counts places from the oldest entry. */
    method FindEntryOffset(charOffset: nat) returns (slot: nat, offset: nat)
      requires Valid()
      requires charOffset < TWO_64
      ensures Walk(Sizes(), 0, charOffset).None? <==> slot == entry.Length
      ensures Walk(Sizes(), 0, charOffset).Some? ==>
                var found := Walk(Sizes(), 0, charOffset).value;
                && slot < entry.Length && offset == found.offset
                && found.index < |Sizes()|
                && slot == Snapshot().SlotOf(found.index)
                && entry[slot] == Recent(history, entry.Length)[found.index]
    {
      ghost var slots := ScanOrder(Snapshot(), history);
      if outOffs == inOffs && !full {
        return entry.Length, 0;
      }
      slot, offset := ScanFrom(charOffset, Sizes(), slots);
    }

    /** The do-while loop of the lookup; `slots` names the array slots in the order it meets them. */
    method ScanFrom(charOffset: nat, ghost sizes: seq<nat>, ghost slots: seq<nat>) returns (slot: nat, offset: nat)
      requires |slots| == |sizes| + 1 && |sizes| > 0
      requires slots[0] == outOffs && slots[|sizes|] == inOffs
      requires forall j :: 0 <= j < |sizes| ==> slots[j] < entry.Length && entry[slots[j]].size == sizes[j]
      requires forall j :: 0 <= j < |sizes| ==> (slots[j] + 1) % entry.Length == slots[j + 1]
      requires forall j :: 0 < j < |sizes| ==> slots[j] != inOffs
      ensures Walk(sizes, 0, charOffset).None? <==> slot == entry.Length
      ensures Walk(sizes, 0, charOffset).Some? ==>
                var found := Walk(sizes, 0, charOffset).value;
                found.index < |sizes| && slot == slots[found.index] && offset == found.offset
    {
      var currCharOffs: nat, elementIdx := 0, outOffs;
      ghost var j, goal := 0, Walk(sizes, 0, charOffset);
      WalkStart(sizes, charOffset);
      while true
        invariant 0 <= j < |sizes| && elementIdx == slots[j]
        invariant Remaining(sizes, j, currCharOffs, charOffset, goal)
        decreases |sizes| - j
      {
        var currEleSize := AsInt32(entry[elementIdx].size);
        WalkStep(sizes, j, currCharOffs, charOffset, goal);
        if U64(currCharOffs + currEleSize) > charOffset {
          return elementIdx, U64(charOffset - currCharOffs);
        }
        currCharOffs := U64(currCharOffs + entry[elementIdx].size);
        elementIdx := (elementIdx + 1) % entry.Length;
        j := j + 1;
        if elementIdx == inOffs {
          WalkEnd(sizes, currCharOffs, charOffset, goal);
          return entry.Length, 0;
        }
      }
    }

    /** The total over all slots in array order, as the FOREACH loop adds it up. */
    method TotalSize() returns (total: nat)
      requires Valid()
      ensures total == Sum(Sizes())
    {
      total := 0;
      ghost var sizes := EntrySizes(entry[..]);
      for index := 0 to entry.Length
        invariant total == Sum(sizes[..index])
      {
        SumNext(sizes, index);
        total := total + entry[index].size;
      }
      assert sizes[..entry.Length] == sizes;
      RotationKeepsSize(Snapshot(), history);
    }
  }

  ghost function LaterBy(p: Option<Place>, j: nat): Option<Place> {
    if p.None? then None else Some(Place(p.value.index + j, p.value.offset))
  }

  /** The answer `goal` is what the walk gives from piece `j` on. */
  ghost predicate Remaining(sizes: seq<nat>, j: nat, acc: nat, pos: nat, goal: Option<Place>)
    requires j <= |sizes|
  {
    goal == LaterBy(Walk(sizes[j..], acc, pos), j)
  }

  lemma {:induction false} WalkStart(sizes: seq<nat>, pos: nat)
    ensures Remaining(sizes, 0, 0, pos, Walk(sizes, 0, pos))
  {
    assert sizes[0..] == sizes;
  }

  lemma {:induction false} WalkStep(sizes: seq<nat>, j: nat, acc: nat, pos: nat, goal: Option<Place>)
    requires j < |sizes| && Remaining(sizes, j, acc, pos, goal)
    ensures U64(acc + AsInt32(sizes[j])) > pos ==> goal == Some(Place(j, U64(pos - acc)))
    ensures U64(acc + AsInt32(sizes[j])) <= pos ==> Remaining(sizes, j + 1, U64(acc + sizes[j]), pos, goal)
  {
    assert sizes[j..][1..] == sizes[j + 1..];
  }

  lemma {:induction false} WalkEnd(sizes: seq<nat>, acc: nat, pos: nat, goal: Option<Place>)
    requires Remaining(sizes, |sizes|, acc, pos, goal)
    ensures goal == None
  {
  }

  lemma {:induction false} SlotNext<E>(img: Image<E>, j: nat)
    requires img.WellFormed() && j < |img.entry|
    ensures (img.SlotOf(j) + 1) % |img.entry| == img.SlotOf(j + 1)
  {
    NextIndex(img.SlotOf(j), |img.entry|);
  }

  /** The slots from the oldest command on, up to and including the next free one. */
  lemma {:induction false} WalkOrder<E>(img: Image<E>) returns (slots: seq<nat>)
    requires img.WellFormed()
    requires if img.full then img.outOffs == img.inOffs else img.outOffs == 0
    ensures |slots| == img.Count() + 1
    ensures slots[0] == img.outOffs && slots[img.Count()] == img.inOffs
    ensures forall j :: 0 <= j < img.Count() ==> slots[j] < |img.entry| && slots[j] == img.SlotOf(j)
    ensures forall j :: 0 <= j < img.Count() ==> img.entry[slots[j]] == img.Logical()[j]
    ensures forall j :: 0 <= j < img.Count() ==> (slots[j] + 1) % |img.entry| == slots[j + 1]
    ensures forall j :: 0 < j < img.Count() ==> slots[j] != img.inOffs
  {
    slots := seq(img.Count() + 1, j requires 0 <= j <= img.Count() => img.SlotOf(j));
    forall j | 0 <= j < img.Count()
      ensures (slots[j] + 1) % |img.entry| == slots[j + 1]
    {
      SlotNext(img, j);
    }
  }

  /** The slots the lookup visits, with the commands it finds there. */
  lemma {:induction false} ScanOrder(img: Image<Entry>, history: seq<Entry>) returns (slots: seq<nat>)
    requires Records(img, history, ZERO_ENTRY)
    ensures img.WellFormed()
    ensures img.outOffs == img.inOffs && !img.full <==> Recent(history, |img.entry|) == []
    ensures |slots| == |Recent(history, |img.entry|)| + 1
    ensures slots[0] == img.outOffs && slots[|slots| - 1] == img.inOffs
    ensures forall j :: 0 <= j < |slots| - 1 ==>
              && slots[j] < |img.entry| && slots[j] == img.SlotOf(j)
              && img.entry[slots[j]] == Recent(history, |img.entry|)[j]
    ensures forall j :: 0 <= j < |slots| - 1 ==> (slots[j] + 1) % |img.entry| == slots[j + 1]
    ensures forall j :: 0 < j < |slots| - 1 ==> slots[j] != img.inOffs
  {
    RecordsWellFormed(img, history, ZERO_ENTRY);
    LogicalIsRecent(img, history, ZERO_ENTRY);
    slots := WalkOrder(img);
  }
}
