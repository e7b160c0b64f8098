/** SLIST: forward links only. */
module SinglyLinkedList {
  import opened Links

  /** `c` is a head followed by the elements of its list. */
  ghost predicate IsList(c: seq<Link>)
    reads c
  {
    c != [] && Distinct(c) && Chained(c)
  }

  method Init(head: Link)
    modifies head`fwd
    ensures IsList([head])
  {
    head.fwd := null;
  }

  method InsertHead(head: Link, elm: Link, ghost c: seq<Link>)
    requires IsList(c) && c[0] == head && elm !in c
    modifies c, elm
    ensures IsList(InsertAt(c, 1, elm))
  {
    elm.fwd := head.fwd;
    head.fwd := elm;
  }

  method InsertAfter(slistelm: Link, elm: Link, ghost c: seq<Link>, ghost i: nat)
    requires IsList(c) && elm !in c
    requires 1 <= i < |c| && c[i] == slistelm
    modifies c, elm
    ensures IsList(InsertAt(c, i + 1, elm))
  {
    elm.fwd := slistelm.fwd;
    slistelm.fwd := elm;
  }

  method RemoveHead(head: Link, ghost c: seq<Link>)
    requires IsList(c) && c[0] == head && |c| > 1
    modifies head
    ensures IsList(RemoveAt(c, 1))
  {
    head.fwd := head.fwd.fwd;
  }

  method RemoveAfter(elm: Link, ghost c: seq<Link>, ghost i: nat)
    requires IsList(c) && 0 <= i < |c| - 1 && c[i] == elm
    modifies elm
    ensures IsList(RemoveAt(c, i + 1))
  {
    elm.fwd := elm.fwd.fwd;
  }

  /** Walks to the predecessor; the walk ends because the element is ahead. */
  method Remove(head: Link, elm: Link, ghost c: seq<Link>, ghost i: nat)
    requires IsList(c) && c[0] == head
    requires 1 <= i < |c| && c[i] == elm
    modifies c
    ensures IsList(RemoveAt(c, i))
    ensures elm.fwd == old(elm.fwd)
  {
    if head.fwd == elm {
      RemoveHead(head, c);
    } else {
      var curelm := head.fwd;
      ghost var at := 1;
      while curelm.fwd != elm
        invariant 1 <= at < i && curelm == c[at]
        decreases i - at
      {
        curelm := curelm.fwd;
        at := at + 1;
      }
      RemoveAfter(curelm, c, at);
    }
  }

  method Concat(head1: Link, head2: Link, ghost c1: seq<Link>, ghost c2: seq<Link>)
    requires IsList(c1) && c1[0] == head1 && IsList(c2) && c2[0] == head2
    requires Apart(c1, c2)
    modifies c1, c2
    ensures IsList(Joined(c1, c2)) && IsList([head2]) && Apart(Joined(c1, c2), [head2])
  {
    var curelm := head1.fwd;
    if curelm == null {
      head1.fwd := head2.fwd;
      if head1.fwd != null {
        Init(head2);
      }
    } else if head2.fwd != null {
      ghost var at := 1;
      while curelm.fwd != null
        invariant 1 <= at < |c1| && curelm == c1[at]
        decreases |c1| - at
      {
        curelm := curelm.fwd;
        at := at + 1;
      }
      curelm.fwd := head2.fwd;
      Init(head2);
    }
  }

  method Swap(head1: Link, head2: Link, ghost c1: seq<Link>, ghost c2: seq<Link>)
    requires IsList(c1) && c1[0] == head1 && IsList(c2) && c2[0] == head2
    requires Apart(c1, c2)
    modifies c1, c2
    ensures IsList(c2[0 := head1]) && IsList(c1[0 := head2]) && Apart(c2[0 := head1], c1[0 := head2])
  {
    var swapFirst := head1.fwd;
    head1.fwd := head2.fwd;
    head2.fwd := swapFirst;
  }

  method Foreach(head: Link, ghost c: seq<Link>) returns (visited: seq<Link>)
    requires IsList(c) && c[0] == head
    ensures visited == c[1..]
  {
    visited := [];
    var v := head.fwd;
    while v != null
      invariant |visited| < |c| && visited == c[1..][..|visited|]
      invariant v == c[|visited|].fwd
      decreases |c| - |visited|
    {
      visited := visited + [v];
      v := v.fwd;
    }
  }
}

/** STAILQ: forward links, and a head that also knows the last link. */
module SinglyLinkedTailQueue {
  import opened Links

  /** As for SLIST, and the head's `back` names the last link: its own in an empty queue. */
  ghost predicate IsQueue(c: seq<Link>)
    reads c
  {
    c != [] && Distinct(c) && Chained(c) && c[0].back == c[|c| - 1]
  }

  method Init(head: Link)
    modifies head
    ensures IsQueue([head])
  {
    head.fwd := null;
    head.back := head;
  }

  method InsertHead(head: Link, elm: Link, ghost c: seq<Link>)
    requires IsQueue(c) && c[0] == head && elm !in c
    modifies c, elm
    ensures IsQueue(InsertAt(c, 1, elm))
  {
    elm.fwd := head.fwd;
    if elm.fwd == null {
      head.back := elm;
    }
    head.fwd := elm;
  }

  method InsertTail(head: Link, elm: Link, ghost c: seq<Link>)
    requires IsQueue(c) && c[0] == head && elm !in c
    modifies c, elm
    ensures IsQueue(InsertAt(c, |c|, elm))
  {
    elm.fwd := null;
    head.back.fwd := elm;
    head.back := elm;
  }

  method InsertAfter(head: Link, tqelm: Link, elm: Link, ghost c: seq<Link>, ghost i: nat)
    requires IsQueue(c) && c[0] == head && elm !in c
    requires 1 <= i < |c| && c[i] == tqelm
    modifies c, elm
    ensures IsQueue(InsertAt(c, i + 1, elm))
  {
    elm.fwd := tqelm.fwd;
    if elm.fwd == null {
      head.back := elm;
    }
    tqelm.fwd := elm;
  }

  method RemoveHead(head: Link, ghost c: seq<Link>)
    requires IsQueue(c) && c[0] == head && |c| > 1
    modifies head
    ensures IsQueue(RemoveAt(c, 1))
  {
    head.fwd := head.fwd.fwd;
    if head.fwd == null {
      head.back := head;
    }
  }

  method RemoveAfter(head: Link, elm: Link, ghost c: seq<Link>, ghost i: nat)
    requires IsQueue(c) && c[0] == head && 1 <= i < |c| - 1 && c[i] == elm
    modifies head, elm
    ensures IsQueue(RemoveAt(c, i + 1))
  {
    elm.fwd := elm.fwd.fwd;
    if elm.fwd == null {
      head.back := elm;
    }
  }

  method Remove(head: Link, elm: Link, ghost c: seq<Link>, ghost i: nat)
    requires IsQueue(c) && c[0] == head
    requires 1 <= i < |c| && c[i] == elm
    modifies c
    ensures IsQueue(RemoveAt(c, i))
    ensures elm.fwd == old(elm.fwd)
  {
    if head.fwd == elm {
      RemoveHead(head, c);
    } else {
      var curelm := head.fwd;
      ghost var at := 1;
      while curelm.fwd != elm
        invariant 1 <= at < i && curelm == c[at]
        decreases i - at
      {
        curelm := curelm.fwd;
        at := at + 1;
      }
      RemoveAfter(head, curelm, c, at);
    }
  }

  method Concat(head1: Link, head2: Link, ghost c1: seq<Link>, ghost c2: seq<Link>)
    requires IsQueue(c1) && c1[0] == head1 && IsQueue(c2) && c2[0] == head2
    requires Apart(c1, c2)
    modifies c1, c2
    ensures IsQueue(Joined(c1, c2)) && IsQueue([head2]) && Apart(Joined(c1, c2), [head2])
  {
    if head2.fwd != null {
      head1.back.fwd := head2.fwd;
      head1.back := head2.back;
      Init(head2);
    }
  }

  method Swap(head1: Link, head2: Link, ghost c1: seq<Link>, ghost c2: seq<Link>)
    requires IsQueue(c1) && c1[0] == head1 && IsQueue(c2) && c2[0] == head2
    requires Apart(c1, c2)
    modifies c1, c2
    ensures IsQueue(c2[0 := head1]) && IsQueue(c1[0 := head2]) && Apart(c2[0 := head1], c1[0 := head2])
  {
    var swapFirst, swapLast := head1.fwd, head1.back;
    head1.fwd, head1.back := head2.fwd, head2.back;
    head2.fwd, head2.back := swapFirst, swapLast;
    if head1.fwd == null {
      head1.back := head1;
    }
    if head2.fwd == null {
      head2.back := head2;
    }
  }

  method Last(head: Link, ghost c: seq<Link>) returns (last: Link?)
    requires IsQueue(c) && c[0] == head
    ensures last == if |c| == 1 then null else c[|c| - 1]
  {
    last := if head.fwd == null then null else head.back;
  }
}
