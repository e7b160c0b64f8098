/** TAILQ: a doubly linked queue whose backward pointers name link fields, not elements. */
module TailQueue {
  import opened Links

  /** `c` is a head followed by the elements of its queue: forward links run through the
      elements, each element's `back` names the link before it, the head's the last link. */
  ghost predicate IsQueue(c: seq<Link>)
    reads c
  {
    && c != [] && Distinct(c) && Chained(c)
    && c[0].back == c[|c| - 1]
    && forall i {:trigger c[i].back} :: 1 <= i < |c| ==> c[i].back == c[i - 1]
  }

  method Init(head: Link)
    modifies head
    ensures IsQueue([head])
  {
    head.fwd := null;
    head.back := head;
  }

  method InsertHead(head: Link, elm: Link, ghost c: seq<Link>)
    requires IsQueue(c) && c[0] == head && elm !in c
    modifies c, elm
    ensures IsQueue(InsertAt(c, 1, elm))
  {
    elm.fwd := head.fwd;
    if elm.fwd != null {
      head.fwd.back := elm;
    } else {
      head.back := elm;
    }
    head.fwd := elm;
    elm.back := head;
  }

  method InsertTail(head: Link, elm: Link, ghost c: seq<Link>)
    requires IsQueue(c) && c[0] == head && elm !in c
    modifies c, elm
    ensures IsQueue(InsertAt(c, |c|, elm))
  {
    elm.fwd := null;
    elm.back := head.back;
    head.back.fwd := elm;
    head.back := elm;
  }

  method InsertAfter(head: Link, listelm: Link, elm: Link, ghost c: seq<Link>, ghost i: nat)
    requires IsQueue(c) && c[0] == head && elm !in c
    requires 1 <= i < |c| && c[i] == listelm
    modifies c, elm
    ensures IsQueue(InsertAt(c, i + 1, elm))
  {
    elm.fwd := listelm.fwd;
    if elm.fwd != null {
      elm.fwd.back := elm;
    } else {
      head.back := elm;
    }
    listelm.fwd := elm;
    elm.back := listelm;
  }

  /** Needs no head: the link to redirect is the one `listelm` points back at. */
  method InsertBefore(listelm: Link, elm: Link, ghost c: seq<Link>, ghost i: nat)
    requires IsQueue(c) && elm !in c
    requires 1 <= i < |c| && c[i] == listelm
    modifies c, elm
    ensures IsQueue(InsertAt(c, i, elm))
  {
    elm.back := listelm.back;
    elm.fwd := listelm;
    listelm.back.fwd := elm;
    listelm.back := elm;
  }

  method Remove(head: Link, elm: Link, ghost c: seq<Link>, ghost i: nat)
    requires IsQueue(c) && c[0] == head
    requires 1 <= i < |c| && c[i] == elm
    modifies c
    ensures IsQueue(RemoveAt(c, i))
    ensures elm.fwd == old(elm.fwd) && elm.back == old(elm.back)
  {
    if elm.fwd != null {
      elm.fwd.back := elm.back;
    } else {
      head.back := elm.back;
    }
    elm.back.fwd := elm.fwd;
  }

  method Concat(head1: Link, head2: Link, ghost c1: seq<Link>, ghost c2: seq<Link>)
    requires IsQueue(c1) && c1[0] == head1 && IsQueue(c2) && c2[0] == head2
    requires Apart(c1, c2)
    modifies c1, c2
    ensures IsQueue(Joined(c1, c2)) && IsQueue([head2]) && Apart(Joined(c1, c2), [head2])
  {
    if head2.fwd != null {
      head1.back.fwd := head2.fwd;
      head2.fwd.back := head1.back;
      head1.back := head2.back;
      Init(head2);
    }
  }

  method Swap(head1: Link, head2: Link, ghost c1: seq<Link>, ghost c2: seq<Link>)
    requires IsQueue(c1) && c1[0] == head1 && IsQueue(c2) && c2[0] == head2
    requires Apart(c1, c2)
    modifies c1, c2
    ensures IsQueue(c2[0 := head1]) && IsQueue(c1[0 := head2]) && Apart(c2[0 := head1], c1[0 := head2])
  {
    var swapFirst, swapLast := head1.fwd, head1.back;
    head1.fwd, head1.back := head2.fwd, head2.back;
    head2.fwd, head2.back := swapFirst, swapLast;
    swapFirst := head1.fwd;
    if swapFirst != null {
      swapFirst.back := head1;
    } else {
      head1.back := head1;
    }
    swapFirst := head2.fwd;
    if swapFirst != null {
      swapFirst.back := head2;
    } else {
      head2.back := head2;
    }
  }

  // ----- finding neighbours by dereferencing twice

  /** The link the head's `back` names, taken for a head itself, names the link before it. */
  method Last(head: Link, ghost c: seq<Link>) returns (last: Link?)
    requires IsQueue(c) && c[0] == head
    ensures last == if |c| == 1 then null else c[|c| - 1]
  {
    last := head.back.back.fwd;
  }

  method Prev(elm: Link, ghost c: seq<Link>, ghost i: nat) returns (prev: Link?)
    requires IsQueue(c)
    requires 1 <= i < |c| && c[i] == elm
    ensures prev == if i == 1 then null else c[i - 1]
  {
    prev := elm.back.back.fwd;
  }

  method Foreach(head: Link, ghost c: seq<Link>) returns (visited: seq<Link>)
    requires IsQueue(c) && c[0] == head
    ensures visited == c[1..]
  {
    visited := [];
    var v := head.fwd;
    while v != null
      invariant |visited| < |c| && visited == c[1..][..|visited|]
      invariant v == c[|visited|].fwd
      decreases |c| - |visited|
    {
      visited := visited + [v];
      v := v.fwd;
    }
  }

  method ForeachReverse(head: Link, ghost c: seq<Link>) returns (visited: seq<Link>)
    requires IsQueue(c) && c[0] == head
    ensures visited == Reverse(c[1..])
  {
    visited := [];
    var v := Last(head, c);
    while v != null
      invariant |visited| < |c| && visited == Reverse(c[1..])[..|visited|]
      invariant v == if |visited| + 1 < |c| then c[|c| - 1 - |visited|] else null
      decreases |c| - |visited|
    {
      var prev := Prev(v, c, |c| - 1 - |visited|);
      visited := visited + [v];
      v := prev;
    }
  }

  // ----- removing while iterating

  /** `s` without the elements of `doomed`. */
  ghost function Without(s: seq<Link>, doomed: set<Link>): seq<Link> {
    if s == [] then []
    else
      var last := s[|s| - 1];
      Without(s[..|s| - 1], doomed) + if last in doomed then [] else [last]
  }

  /** The queue half way through: the survivors so far, then everything not yet visited. */
  ghost function PartWay(c: seq<Link>, k: nat, doomed: set<Link>): seq<Link>
    requires k <= |c|
  {
    Without(c[..k], doomed) + c[k..]
  }

  lemma {:induction false} PartWayStep(c: seq<Link>, k: nat, doomed: set<Link>)
    requires k < |c|
    ensures |Without(c[..k], doomed)| < |PartWay(c, k, doomed)|
    ensures PartWay(c, k, doomed)[|Without(c[..k], doomed)|] == c[k]
    ensures PartWay(c, k + 1, doomed) ==
            if c[k] in doomed then RemoveAt(PartWay(c, k, doomed), |Without(c[..k], doomed)|) else PartWay(c, k, doomed)
  {
    assert c[..k + 1][..k] == c[..k];
    assert c[k..] == [c[k]] + c[k + 1..];
  }

  lemma {:induction false} PartWayEnds(c: seq<Link>, doomed: set<Link>)
    requires c != [] && c[0] !in doomed
    ensures PartWay(c, 1, doomed) == c
    ensures PartWay(c, |c|, doomed) == Without(c, doomed)
  {
    assert c[..1] == [c[0]] && c == [c[0]] + c[1..];
    assert [c[0]][..0] == [] && Without([], doomed) == [];
    assert Without([c[0]], doomed) == [c[0]];
    assert c[..|c|] == c && Without(c, doomed) + [] == Without(c, doomed);
  }

  lemma {:induction false} WithoutKeepsHead(c: seq<Link>, k: nat, doomed: set<Link>)
    requires 1 <= k <= |c| && c[0] !in doomed
    ensures Without(c[..k], doomed) != [] && Without(c[..k], doomed)[0] == c[0]
    ensures forall x :: x in Without(c[..k], doomed) ==> x in c
  {
    assert c[..k][..k - 1] == c[..k - 1];
    if k > 1 {
      WithoutKeepsHead(c, k - 1, doomed);
    } else {
      assert Without(c[..k][..0], doomed) == [];
    }
  }

  /** One round of FOREACH_SAFE: the successor is fetched before the element may go. */
  method SafeRound(head: Link, v: Link, doomed: set<Link>, ghost c: seq<Link>, ghost k: nat, ghost now: seq<Link>)
    returns (tvar: Link?, ghost next: seq<Link>)
    requires 1 <= k < |c| && c[k] == v && c[0] == head && head !in doomed
    requires now == PartWay(c, k, doomed) && IsQueue(now)
    modifies c
    ensures next == PartWay(c, k + 1, doomed) && IsQueue(next)
    ensures tvar == if k + 1 < |c| then c[k + 1] else null
  {
    ghost var at := |Without(c[..k], doomed)|;
    PartWayStep(c, k, doomed);
    WithoutKeepsHead(c, k, doomed);
    assert now[at].fwd == if at + 1 < |now| then now[at + 1] else null;
    tvar := v.fwd;
    next := now;
    if v in doomed {
      assert forall j :: 0 <= j < |now| ==> now[j] in c;
      Remove(head, v, now, at);
      next := RemoveAt(now, at);
    }
  }

  /** FOREACH_SAFE with REMOVE in its body visits every element and leaves the others queued in order. */
  method RemoveDuringForeachSafe(head: Link, doomed: set<Link>, ghost c: seq<Link>) returns (visited: seq<Link>)
    requires IsQueue(c) && c[0] == head && head !in doomed
    modifies c
    ensures visited == c[1..]
    ensures IsQueue(Without(c, doomed))
  {
    visited := [];
    var v := head.fwd;
    ghost var k, now := 1, c;
    PartWayEnds(c, doomed);
    while v != null
      invariant 1 <= k <= |c| && |visited| == k - 1
      invariant forall j :: 0 <= j < k - 1 ==> visited[j] == c[j + 1]
      invariant v == if k < |c| then c[k] else null
      invariant now == PartWay(c, k, doomed) && IsQueue(now)
      decreases |c| - k
    {
      visited := visited + [v];
      v, now := SafeRound(head, v, doomed, c, k, now);
      k := k + 1;
    }
  }
}
