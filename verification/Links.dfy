/** The link words of queue.h. A `struct type **` that points at a link field is modelled
    by the link pair holding that field, so heads and elements are of one class. */
module Links {

  class Link {
    /** tqh_first of a head, tqe_next of an element, and likewise for the other lists. */
    var fwd: Link?
    /** tqh_last of a head, tqe_prev or le_prev of an element: whose `fwd` is pointed at. */
    var back: Link?

    constructor ()
      ensures fwd == null && back == null
    {
      fwd, back := null, null;
    }
  }

  ghost predicate Distinct<T>(s: seq<T>) {
    forall i, j :: 0 <= i < j < |s| ==> s[i] != s[j]
  }

  /** The links of `c` follow one another and end in NULL. */
  ghost predicate Chained(c: seq<Link>)
    reads c
  {
    forall i {:trigger c[i].fwd} :: 0 <= i < |c| ==> c[i].fwd == if i + 1 < |c| then c[i + 1] else null
  }

  function InsertAt<T>(s: seq<T>, i: nat, x: T): (r: seq<T>)
    requires i <= |s|
    ensures |r| == |s| + 1
    ensures forall j {:trigger r[j]} :: 0 <= j < |r| ==> r[j] == if j < i then s[j] else if j == i then x else s[j - 1]
  {
    s[..i] + [x] + s[i..]
  }

  function RemoveAt<T>(s: seq<T>, i: nat): (r: seq<T>)
    requires i < |s|
    ensures |r| == |s| - 1
    ensures forall j {:trigger r[j]} :: 0 <= j < |r| ==> r[j] == if j < i then s[j] else s[j + 1]
  {
    s[..i] + s[i + 1..]
  }

  /** `a`, followed by `b` without its head. */
  function Joined<T>(a: seq<T>, b: seq<T>): (r: seq<T>)
    requires b != []
    ensures |r| == |a| + |b| - 1
    ensures forall j {:trigger r[j]} :: 0 <= j < |r| ==> r[j] == if j < |a| then a[j] else b[j - |a| + 1]
  {
    a + b[1..]
  }

  ghost predicate Apart<T>(a: seq<T>, b: seq<T>) {
    forall i, j :: 0 <= i < |a| && 0 <= j < |b| ==> a[i] != b[j]
  }

  function Reverse<T>(s: seq<T>): (r: seq<T>)
    ensures |r| == |s|
    ensures forall i :: 0 <= i < |s| ==> r[i] == s[|s| - 1 - i]
  {
    if s == [] then [] else Reverse(s[1..]) + [s[0]]
  }

  lemma {:induction false} RemoveDistinct<T>(s: seq<T>, i: nat)
    requires i < |s| && Distinct(s)
    ensures Distinct(RemoveAt(s, i))
    ensures forall x :: x in RemoveAt(s, i) <==> x in s && x != s[i]
  {
    var r := RemoveAt(s, i);
    forall x | x in s && x != s[i]
      ensures x in r
    {
      var j :| 0 <= j < |s| && s[j] == x;
      assert r[if j < i then j else j - 1] == x;
    }
    forall j | 0 <= j < |r|
      ensures r[j] in s && r[j] != s[i]
    {
      assert r[j] == s[if j < i then j else j + 1];
    }
  }
}
