/** LIST: doubly linked, so that an element can leave without its head or a walk. */
module LinkedList {
  import opened Links

  /** `c` is a head followed by the elements of its list; each element points back at the
      link before it. The head has no backward pointer. */
  ghost predicate IsList(c: seq<Link>)
    reads c
  {
    && c != [] && Distinct(c) && Chained(c)
    && forall i {:trigger c[i].back} :: 1 <= i < |c| ==> c[i].back == c[i - 1]
  }

  /** The list is intact exactly when the link every element points back at is one of its
      own and names that element. */
  lemma {:induction false} BackNamesElement(c: seq<Link>)
    requires c != [] && Distinct(c) && Chained(c)
    ensures IsList(c) <==>
            forall i {:trigger c[i].back} :: 1 <= i < |c| ==> c[i].back != null && c[i].back in c && c[i].back.fwd == c[i]
  {
    if IsList(c) {
      forall i | 1 <= i < |c|
        ensures c[i].back != null && c[i].back in c && c[i].back.fwd == c[i]
      {
        assert c[i].back == c[i - 1] && c[i - 1].fwd == c[i];
      }
    }
    forall i | 1 <= i < |c| && c[i].back != null && c[i].back in c && c[i].back.fwd == c[i]
      ensures c[i].back == c[i - 1]
    {
      var j :| 0 <= j < |c| && c[j] == c[i].back;
      assert c[j].fwd == c[i];
    }
  }

  method Init(head: Link)
    modifies head`fwd
    ensures IsList([head])
  {
    head.fwd := null;
  }

  method InsertAfter(listelm: Link, elm: Link, ghost c: seq<Link>, ghost i: nat)
    requires IsList(c) && elm !in c
    requires 1 <= i < |c| && c[i] == listelm
    modifies c, elm
    ensures IsList(InsertAt(c, i + 1, elm))
  {
    elm.fwd := listelm.fwd;
    if elm.fwd != null {
      listelm.fwd.back := elm;
    }
    listelm.fwd := elm;
    elm.back := listelm;
  }

  method InsertBefore(listelm: Link, elm: Link, ghost c: seq<Link>, ghost i: nat)
    requires IsList(c) && elm !in c
    requires 1 <= i < |c| && c[i] == listelm
    modifies c, elm
    ensures IsList(InsertAt(c, i, elm))
  {
    elm.back := listelm.back;
    elm.fwd := listelm;
    listelm.back.fwd := elm;
    listelm.back := elm;
  }

  method InsertHead(head: Link, elm: Link, ghost c: seq<Link>)
    requires IsList(c) && c[0] == head && elm !in c
    modifies c, elm
    ensures IsList(InsertAt(c, 1, elm))
  {
    elm.fwd := head.fwd;
    if elm.fwd != null {
      head.fwd.back := elm;
    }
    head.fwd := elm;
    elm.back := head;
  }

  method Remove(elm: Link, ghost c: seq<Link>, ghost i: nat)
    requires IsList(c) && 1 <= i < |c| && c[i] == elm
    modifies c
    ensures IsList(RemoveAt(c, i))
    ensures elm.fwd == old(elm.fwd) && elm.back == old(elm.back)
  {
    if elm.fwd != null {
      elm.fwd.back := elm.back;
    }
    elm.back.fwd := elm.fwd;
  }

  method Prev(elm: Link, head: Link, ghost c: seq<Link>, ghost i: nat) returns (prev: Link?)
    requires IsList(c) && c[0] == head && 1 <= i < |c| && c[i] == elm
    ensures prev == if i == 1 then null else c[i - 1]
  {
    prev := if elm.back == head then null else elm.back;
  }

  method Concat(head1: Link, head2: Link, ghost c1: seq<Link>, ghost c2: seq<Link>)
    requires IsList(c1) && c1[0] == head1 && IsList(c2) && c2[0] == head2
    requires Apart(c1, c2)
    modifies c1, c2
    ensures IsList(Joined(c1, c2)) && IsList([head2]) && Apart(Joined(c1, c2), [head2])
  {
    var curelm := head1.fwd;
    if curelm == null {
      head1.fwd := head2.fwd;
      if head1.fwd != null {
        head2.fwd.back := head1;
        Init(head2);
      }
    } else if head2.fwd != null {
      ghost var at := 1;
      while curelm.fwd != null
        invariant 1 <= at < |c1| && curelm == c1[at]
        decreases |c1| - at
      {
        curelm := curelm.fwd;
        at := at + 1;
      }
      curelm.fwd := head2.fwd;
      head2.fwd.back := curelm;
      Init(head2);
    }
  }

  method Swap(head1: Link, head2: Link, ghost c1: seq<Link>, ghost c2: seq<Link>)
    requires IsList(c1) && c1[0] == head1 && IsList(c2) && c2[0] == head2
    requires Apart(c1, c2)
    modifies c1, c2
    ensures IsList(c2[0 := head1]) && IsList(c1[0 := head2]) && Apart(c2[0 := head1], c1[0 := head2])
  {
    var swapTmp := head1.fwd;
    head1.fwd := head2.fwd;
    head2.fwd := swapTmp;
    swapTmp := head1.fwd;
    if swapTmp != null {
      swapTmp.back := head1;
    }
    swapTmp := head2.fwd;
    if swapTmp != null {
      swapTmp.back := head2;
    }
  }
}
