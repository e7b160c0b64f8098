/** kmalloc, krealloc and kfree over a set of live blocks. Freeing requires a live
    block, so every verified caller is free of double frees. */
module KernelHeap {
  import opened Machine

  /** No allocation request beyond this many bytes is ever granted. */
  const LIMIT: nat := INT_MAX

  class KernelHeap {
    ghost var live: set<array?<Byte>>

    constructor ()
      ensures live == {}
    {
      live := {};
    }

    /** `ok` says whether memory is available; a granted block may be larger by `slack`. */
    method Kmalloc(size: nat, ok: bool, slack: nat) returns (p: array?<Byte>)
      modifies this
      ensures p != null <==> ok && size <= LIMIT
      ensures p == null ==> live == old(live)
      ensures p != null ==> fresh(p) && p.Length >= size && live == old(live) + {p}
    {
      if !ok || size > LIMIT {
        return null;
      }
      p := new Byte[size + slack];
      live := live + {p};
    }

    /** Keeps the block when asked to and it is large enough, or else moves its contents to a new one. */
    method Krealloc(p: array?<Byte>, size: nat, ok: bool, keep: bool, slack: nat) returns (q: array?<Byte>)
      requires p != null ==> p in live
      modifies this
      ensures q != null <==> ok && size <= LIMIT
      ensures q == null ==> live == old(live)
      ensures q != null ==> q.Length >= size && (q == p || fresh(q))
      ensures q != null ==> live == (if p == null then old(live) else old(live) - {p}) + {q}
      ensures q != null && p != null ==> forall i :: 0 <= i < p.Length && i < size ==> q[i] == p[i]
    {
      if p == null {
        q := Kmalloc(size, ok, slack);
        return;
      }
      if !ok || size > LIMIT {
        return null;
      }
      if keep && size <= p.Length {
        live := live - {p} + {p};
        return p;
      }
      var r := new Byte[size + slack];
      forall i | 0 <= i < p.Length && i < size {
        r[i] := p[i];
      }
      live := live - {p} + {r};
      q := r;
    }

    /** Freeing NULL does nothing. */
    method Kfree(p: array?<Byte>)
      requires p != null ==> p in live
      modifies this
      ensures live == if p == null then old(live) else old(live) - {p}
    {
      if p != null {
        live := live - {p};
      }
    }
  }
}
