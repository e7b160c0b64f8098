/** Sums, concatenations and suffixes of sequences. */
module Sequences {

  function Sum(s: seq<nat>): nat {
    if s == [] then 0 else s[0] + Sum(s[1..])
  }

  lemma {:induction false} SumAppend(a: seq<nat>, b: seq<nat>)
    ensures Sum(a + b) == Sum(a) + Sum(b)
  {
    if a == [] {
      assert a + b == b;
    } else {
      assert (a + b)[1..] == a[1..] + b;
      SumAppend(a[1..], b);
    }
  }

  lemma {:induction false} SumTake(s: seq<nat>, i: nat, j: nat)
    requires i <= j <= |s|
    ensures Sum(s[..i]) <= Sum(s[..j]) <= Sum(s)
    ensures i < j ==> Sum(s[..i]) + s[i] <= Sum(s[..j])
  {
    assert s[..j] == s[..i] + s[i..j];
    SumAppend(s[..i], s[i..j]);
    assert s == s[..j] + s[j..];
    SumAppend(s[..j], s[j..]);
  }

  lemma {:induction false} SumNext(s: seq<nat>, i: nat)
    requires i < |s|
    ensures Sum(s[..i + 1]) == Sum(s[..i]) + s[i]
  {
    assert s[..i + 1] == s[..i] + [s[i]];
    SumAppend(s[..i], [s[i]]);
  }

  lemma {:induction false} SumZero(s: seq<nat>)
    requires forall i :: 0 <= i < |s| ==> s[i] == 0
    ensures Sum(s) == 0
  {
    if s != [] {
      SumZero(s[1..]);
    }
  }

  lemma {:induction false} SumBound(s: seq<nat>, bound: nat)
    requires forall i :: 0 <= i < |s| ==> s[i] <= bound
    ensures Sum(s) <= |s| * bound
  {
    if s != [] {
      SumBound(s[1..], bound);
      assert (|s| - 1) * bound + bound == |s| * bound;
    }
  }

  function Flatten<T>(ss: seq<seq<T>>): seq<T> {
    if ss == [] then [] else ss[0] + Flatten(ss[1..])
  }

  lemma {:induction false} FlattenAppend<T>(a: seq<seq<T>>, b: seq<seq<T>>)
    ensures Flatten(a + b) == Flatten(a) + Flatten(b)
  {
    if a == [] {
      assert a + b == b;
    } else {
      assert (a + b)[1..] == a[1..] + b;
      FlattenAppend(a[1..], b);
    }
  }

  lemma {:induction false} FlattenOne<T>(s: seq<T>)
    ensures Flatten([s]) == s
  {
    assert [s][1..] == [];
  }

  function Lengths<T>(ss: seq<seq<T>>): (r: seq<nat>)
    ensures |r| == |ss|
    ensures forall i :: 0 <= i < |r| ==> r[i] == |ss[i]|
  {
    if ss == [] then [] else [|ss[0]|] + Lengths(ss[1..])
  }

  lemma {:induction false} FlattenLength<T>(ss: seq<seq<T>>)
    ensures |Flatten(ss)| == Sum(Lengths(ss))
  {
    if ss != [] {
      assert Lengths(ss)[1..] == Lengths(ss[1..]);
      FlattenLength(ss[1..]);
    }
  }

  /** Part `j` of a concatenation starts where the parts before it end. */
  lemma {:induction false} FlattenSlice<T>(ss: seq<seq<T>>, j: nat, lo: nat, hi: nat)
    requires j < |ss| && lo <= hi <= |ss[j]|
    ensures Sum(Lengths(ss)[..j]) + hi <= |Flatten(ss)|
    ensures Flatten(ss)[Sum(Lengths(ss)[..j]) + lo..Sum(Lengths(ss)[..j]) + hi] == ss[j][lo..hi]
  {
    var before, rest := ss[..j], ss[j + 1..];
    assert ss == before + ([ss[j]] + rest);
    FlattenAppend(before, [ss[j]] + rest);
    assert ([ss[j]] + rest)[1..] == rest;
    FlattenLength(before);
    assert Lengths(before) == Lengths(ss)[..j];
  }

  /** The last `n` elements, or all of them when there are fewer. */
  function Recent<T>(s: seq<T>, n: nat): seq<T> {
    if |s| <= n then s else s[|s| - n..]
  }

  /** What `Recent` leaves out. */
  function Older<T>(s: seq<T>, n: nat): seq<T> {
    if |s| <= n then [] else s[..|s| - n]
  }

  lemma {:induction false} OlderRecent<T>(s: seq<T>, n: nat)
    ensures s == Older(s, n) + Recent(s, n)
  {
  }

  lemma {:induction false} SliceTake<T>(s: seq<T>, lo: nat, mid: nat, hi: nat)
    requires lo <= mid <= hi <= |s|
    ensures s[lo..hi][..mid - lo] == s[lo..mid]
  {
  }

  lemma {:induction false} RecentLengths<T>(ss: seq<seq<T>>, n: nat)
    ensures Recent(Lengths(ss), n) == Lengths(Recent(ss, n))
  {
  }

  lemma {:induction false} SameInitAndLast<T>(a: seq<T>, b: seq<T>)
    requires |a| == |b| > 0 && a[..|a| - 1] == b[..|b| - 1] && a[|a| - 1] == b[|b| - 1]
    ensures a == b
  {
    assert a == a[..|a| - 1] + [a[|a| - 1]];
    assert b == b[..|b| - 1] + [b[|b| - 1]];
  }
}
