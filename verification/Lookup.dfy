/** From a flat position to a place inside a sequence of pieces: the intended
    answer, the answer machine arithmetic gives, and exactly when they agree. */
module Lookup {
  import opened Machine
  import opened Sequences

  /** Byte `offset` of piece `index`. */
  datatype Place = Place(index: nat, offset: nat)

  function Later(p: Option<Place>): Option<Place> {
    if p.None? then None else Some(Place(p.value.index + 1, p.value.offset))
  }

  /** The place of flat position `pos` when pieces of these sizes are laid end to end. */
  function Locate(sizes: seq<nat>, pos: nat): Option<Place> {
    if sizes == [] then None
    else if pos < sizes[0] then Some(Place(0, pos))
    else Later(Locate(sizes[1..], pos - sizes[0]))
  }

  lemma {:induction false} LocateSound(sizes: seq<nat>, pos: nat)
    ensures Locate(sizes, pos).Some? ==>
              var p := Locate(sizes, pos).value;
              && p.index < |sizes|
              && p.offset < sizes[p.index]
              && pos == Sum(sizes[..p.index]) + p.offset
    ensures Locate(sizes, pos).None? <==> Sum(sizes) <= pos
  {
    if sizes != [] && sizes[0] <= pos {
      LocateSound(sizes[1..], pos - sizes[0]);
      var rest := Locate(sizes[1..], pos - sizes[0]);
      if rest.Some? {
        var j := rest.value.index;
        assert sizes[..j + 1] == [sizes[0]] + sizes[1..][..j];
      }
    }
  }

  /** A place is the answer for exactly one position, and each position below the total has exactly one place. */
  lemma {:induction false} LocateExact(sizes: seq<nat>, pos: nat, p: Place)
    ensures Locate(sizes, pos) == Some(p) <==>
            p.index < |sizes| && p.offset < sizes[p.index] && pos == Sum(sizes[..p.index]) + p.offset
  {
    LocateSound(sizes, pos);
    if p.index < |sizes| && p.offset < sizes[p.index] && pos == Sum(sizes[..p.index]) + p.offset {
      SumTake(sizes, p.index, p.index + 1);
      SumTake(sizes, p.index + 1, |sizes|);
      var q := Locate(sizes, pos).value;
      if q.index < p.index {
        SumTake(sizes, q.index, p.index);
      } else if p.index < q.index {
        SumTake(sizes, p.index, q.index);
      }
    }
  }

  /** The walk of the C code over the sizes from the oldest entry on: the running
      offset is a `size_t`, the size it is compared with has passed through an `int`. */
  function Walk(sizes: seq<nat>, acc: nat, pos: nat): Option<Place> {
    if sizes == [] then None
    else if U64(acc + AsInt32(sizes[0])) > pos then Some(Place(0, U64(pos - acc)))
    else Later(Walk(sizes[1..], U64(acc + sizes[0]), pos))
  }

  lemma {:induction false} WalkIsLocate(sizes: seq<nat>, acc: nat, pos: nat)
    requires acc <= pos < TWO_64
    requires acc + Sum(sizes) < TWO_64
    requires forall i :: 0 <= i < |sizes| ==> sizes[i] <= INT_MAX
    ensures Walk(sizes, acc, pos) == Locate(sizes, pos - acc)
  {
    if sizes != [] && acc + sizes[0] <= pos {
      WalkIsLocate(sizes[1..], acc + sizes[0], pos);
    }
  }

  /** A size that does not fit an `int` always spoils the answer for some position. */
  lemma {:induction false} WalkGoesWrong(sizes: seq<nat>, acc: nat) returns (pos: nat)
    requires acc + Sum(sizes) < TWO_63
    requires exists i :: 0 <= i < |sizes| && sizes[i] > INT_MAX
    ensures acc <= pos < TWO_64
    ensures Walk(sizes, acc, pos) != Locate(sizes, pos - acc)
  {
    if sizes[0] <= INT_MAX {
      TooLargeBehind(sizes);
      pos := WalkGoesWrong(sizes[1..], acc + sizes[0]);
      BothWrong(sizes, acc, pos);
    } else {
      pos := FirstGoesWrong(sizes, acc);
    }
  }

  /** Past a first piece that fits an `int` both lookups go on with the rest. */
  lemma {:induction false} BothSkip(sizes: seq<nat>, acc: nat, pos: nat)
    requires sizes != [] && sizes[0] <= INT_MAX && acc + Sum(sizes) < TWO_63 && acc + sizes[0] <= pos
    ensures Walk(sizes, acc, pos) == Later(Walk(sizes[1..], acc + sizes[0], pos))
    ensures Locate(sizes, pos - acc) == Later(Locate(sizes[1..], pos - (acc + sizes[0])))
  {
  }

  lemma {:induction false} TooLargeBehind(sizes: seq<nat>)
    requires exists i :: 0 <= i < |sizes| && sizes[i] > INT_MAX
    requires sizes[0] <= INT_MAX
    ensures exists i :: 0 <= i < |sizes[1..]| && sizes[1..][i] > INT_MAX
    ensures Sum(sizes) == sizes[0] + Sum(sizes[1..])
  {
    var i :| 0 <= i < |sizes| && sizes[i] > INT_MAX;
    assert sizes[1..][i - 1] == sizes[i];
  }

  lemma {:induction false} BothWrong(sizes: seq<nat>, acc: nat, pos: nat)
    requires sizes != [] && sizes[0] <= INT_MAX && acc + Sum(sizes) < TWO_63 && acc + sizes[0] <= pos
    requires Walk(sizes[1..], acc + sizes[0], pos) != Locate(sizes[1..], pos - (acc + sizes[0]))
    ensures Walk(sizes, acc, pos) != Locate(sizes, pos - acc)
  {
    BothSkip(sizes, acc, pos);
  }

  /** A first piece that does not fit is found where it has ended, or missed at its last byte. */
  lemma {:induction false} FirstGoesWrong(sizes: seq<nat>, acc: nat) returns (pos: nat)
    requires sizes != [] && sizes[0] > INT_MAX && acc + Sum(sizes) < TWO_63
    ensures acc <= pos < TWO_64
    ensures Walk(sizes, acc, pos) != Locate(sizes, pos - acc)
  {
    if acc + AsInt32(sizes[0]) < 0 {
      pos := acc + sizes[0];
      assert U64(acc + AsInt32(sizes[0])) == acc + AsInt32(sizes[0]) + TWO_64;
    } else {
      pos := acc + sizes[0] - 1;
    }
  }

  /** The lookup is right at every position exactly when every size fits an `int`. */
  lemma {:induction false} WalkExact(sizes: seq<nat>)
    requires Sum(sizes) < TWO_63
    ensures (forall pos: nat | pos < TWO_64 :: Walk(sizes, 0, pos) == Locate(sizes, pos)) <==>
            (forall i :: 0 <= i < |sizes| ==> sizes[i] <= INT_MAX)
  {
    if forall i :: 0 <= i < |sizes| ==> sizes[i] <= INT_MAX {
      forall pos: nat | pos < TWO_64
        ensures Walk(sizes, 0, pos) == Locate(sizes, pos)
      {
        WalkIsLocate(sizes, 0, pos);
      }
    } else {
      var pos := WalkGoesWrong(sizes, 0);
    }
  }

  /** Sizes that add up to 2^63 and more are another matter: this one reads as -1, and no
      position is looked up wrongly. */
  lemma {:induction false} WalkBeyond(pos: nat)
    requires pos < TWO_64
    ensures Walk([TWO_64 - 1], 0, pos) == Locate([TWO_64 - 1], pos)
  {
    assert AsInt32(TWO_64 - 1) == -1;
  }

  /** With at most 255 pieces of at most 2^31-1 bytes the 64-bit running sum never wraps. */
  lemma {:induction false} NoWrap(sizes: seq<nat>)
    requires |sizes| <= 255
    requires forall i :: 0 <= i < |sizes| ==> sizes[i] <= INT_MAX
    ensures Sum(sizes) < TWO_63
  {
    SumBound(sizes, INT_MAX);
    assert |sizes| * INT_MAX <= 255 * INT_MAX;
  }
}
