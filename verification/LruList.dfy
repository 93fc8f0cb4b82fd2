/** The circular doubly linked list of the LRU cache, linked through the handles, with a dummy head. */
module LruLists {
  import opened LruHandles
  import opened LruTables

  /** The node at position `i`, or the dummy beyond both ends. */
  function Around(order: seq<LRUHandle>, i: int, dummy: LRUHandle): LRUHandle {
    if 0 <= i < |order| then order[i] else dummy
  }

  /** `nodes` are the members of `order`, each once in it. */
  ghost predicate ListOf(order: seq<LRUHandle>, nodes: set<LRUHandle>) {
    NoDup(order) && (forall i | 0 <= i < |order| :: order[i] in nodes) && (forall h | h in nodes :: h in order)
  }

  /** From the dummy, `next` runs through `order` and back. */
  ghost predicate Forward(dummy: LRUHandle, order: seq<LRUHandle>, nodes: set<LRUHandle>)
    requires ListOf(order, nodes)
    reads dummy`next, nodes`next
  {
    && dummy.next == Around(order, 0, dummy)
    && (forall i {:trigger order[i].next} | 0 <= i < |order| :: order[i].next == Around(order, i + 1, dummy))
  }

  /** And `prev` the other way. */
  ghost predicate Backward(dummy: LRUHandle, order: seq<LRUHandle>, nodes: set<LRUHandle>)
    requires ListOf(order, nodes)
    reads dummy`prev, nodes`prev
  {
    && dummy.prev == Around(order, |order| - 1, dummy)
    && (forall i {:trigger order[i].prev} | 0 <= i < |order| :: order[i].prev == Around(order, i - 1, dummy))
  }

  ghost predicate Circular(dummy: LRUHandle, order: seq<LRUHandle>, nodes: set<LRUHandle>)
    requires ListOf(order, nodes)
    reads dummy`next, dummy`prev, nodes`next, nodes`prev
  {
    dummy !in nodes && Forward(dummy, order, nodes) && Backward(dummy, order, nodes)
  }

  function Cut(order: seq<LRUHandle>, i: nat): seq<LRUHandle>
    requires i < |order|
  {
    order[..i] + order[i + 1..]
  }

  function Splice(order: seq<LRUHandle>, i: nat, e: LRUHandle): seq<LRUHandle>
    requires i <= |order|
  {
    order[..i] + [e] + order[i..]
  }

  lemma CutMembers(order: seq<LRUHandle>, nodes: set<LRUHandle>, i: nat)
    requires ListOf(order, nodes) && i < |order|
    ensures ListOf(Cut(order, i), nodes - {order[i]})
  {
    var after := Cut(order, i);
    forall h | h in nodes && h != order[i]
      ensures h in after
    {
      var k :| 0 <= k < |order| && order[k] == h;
      assert after[if k < i then k else k - 1] == h;
    }
  }

  lemma SpliceMembers(order: seq<LRUHandle>, nodes: set<LRUHandle>, i: nat, e: LRUHandle)
    requires ListOf(order, nodes) && i <= |order| && e !in nodes
    ensures ListOf(Splice(order, i, e), nodes + {e})
  {
    var after := Splice(order, i, e);
    forall h | h in nodes + {e}
      ensures h in after
    {
      if h == e {
        assert after[i] == e;
      } else {
        var k :| 0 <= k < |order| && order[k] == h;
        assert after[if k < i then k else k + 1] == h;
      }
    }
  }

  /** Takes the node at position `i` out of the list. */
  method Unlink(e: LRUHandle, ghost dummy: LRUHandle, ghost order: seq<LRUHandle>, ghost nodes: set<LRUHandle>,
                ghost i: nat)
    requires ListOf(order, nodes) && Circular(dummy, order, nodes) && i < |order| && order[i] == e
    modifies dummy`next, dummy`prev, nodes`next, nodes`prev
    ensures ListOf(Cut(order, i), nodes - {e}) && Circular(dummy, Cut(order, i), nodes - {e})
    ensures e.next == null && e.prev == null
  {
    hide Cut, Forward, Backward;
    CutMembers(order, nodes, i);
    NextOf(dummy, order, nodes, i);
    UnlinkBackward(e, dummy, order, nodes, i);
    UnlinkForward(e, dummy, order, nodes, i);
    e.prev, e.next := null, null;
  }

  lemma NextOf(dummy: LRUHandle, order: seq<LRUHandle>, nodes: set<LRUHandle>, i: nat)
    requires ListOf(order, nodes) && Forward(dummy, order, nodes) && i < |order|
    ensures order[i].next == Around(order, i + 1, dummy)
  {
  }

  method UnlinkBackward(e: LRUHandle, ghost dummy: LRUHandle, ghost order: seq<LRUHandle>,
                        ghost nodes: set<LRUHandle>, ghost i: nat)
    requires ListOf(order, nodes) && dummy !in nodes && Backward(dummy, order, nodes) && i < |order| && order[i] == e
    requires e.next == Around(order, i + 1, dummy)
    modifies dummy`prev, nodes`prev
    ensures ListOf(Cut(order, i), nodes - {e}) && Backward(dummy, Cut(order, i), nodes - {e})
    ensures e.prev == Around(order, i - 1, dummy)
  {
    assert e.prev == Around(order, i - 1, dummy);
    e.next.prev := e.prev;
    ghost var after := Cut(order, i);
    CutMembers(order, nodes, i);
    forall k | 0 <= k < |after|
      ensures after[k].prev == Around(after, k - 1, dummy)
    {
      if k < i {
        assert after[k] == order[k] && old(order[k].prev) == Around(order, k - 1, dummy);
      } else {
        assert after[k] == order[k + 1] && old(order[k + 1].prev) == Around(order, k, dummy);
      }
    }
  }

  method UnlinkForward(e: LRUHandle, ghost dummy: LRUHandle, ghost order: seq<LRUHandle>,
                       ghost nodes: set<LRUHandle>, ghost i: nat)
    requires ListOf(order, nodes) && dummy !in nodes && Forward(dummy, order, nodes) && i < |order| && order[i] == e
    requires e.prev == Around(order, i - 1, dummy)
    modifies dummy`next, nodes`next
    ensures ListOf(Cut(order, i), nodes - {e}) && Forward(dummy, Cut(order, i), nodes - {e})
  {
    assert e.next == Around(order, i + 1, dummy);
    e.prev.next := e.next;
    ghost var after := Cut(order, i);
    CutMembers(order, nodes, i);
    forall k | 0 <= k < |after|
      ensures after[k].next == Around(after, k + 1, dummy)
    {
      if k < i {
        assert after[k] == order[k] && old(order[k].next) == Around(order, k + 1, dummy);
      } else {
        assert after[k] == order[k + 1] && old(order[k + 1].next) == Around(order, k + 2, dummy);
      }
    }
  }

  /** Puts a node behind `p`, which is at position `i` - 1 or the dummy. */
  method LinkBehind(p: LRUHandle, e: LRUHandle, ghost dummy: LRUHandle, ghost order: seq<LRUHandle>,
                    ghost nodes: set<LRUHandle>, ghost i: nat)
    requires ListOf(order, nodes) && Circular(dummy, order, nodes) && i <= |order|
             && p == Around(order, i - 1, dummy) && e != dummy && e !in nodes
    modifies dummy`next, dummy`prev, nodes`next, nodes`prev, e`next, e`prev
    ensures ListOf(Splice(order, i, e), nodes + {e}) && Circular(dummy, Splice(order, i, e), nodes + {e})
  {
    hide Splice, Forward, Backward;
    SpliceMembers(order, nodes, i, e);
    LinkForward(p, e, dummy, order, nodes, i);
    LinkBackward(p, e, dummy, order, nodes, i);
  }

  method LinkForward(p: LRUHandle, e: LRUHandle, ghost dummy: LRUHandle, ghost order: seq<LRUHandle>,
                     ghost nodes: set<LRUHandle>, ghost i: nat)
    requires ListOf(order, nodes) && dummy !in nodes && Forward(dummy, order, nodes) && i <= |order|
             && p == Around(order, i - 1, dummy) && e != dummy && e !in nodes
    modifies dummy`next, nodes`next, e`next
    ensures ListOf(Splice(order, i, e), nodes + {e}) && Forward(dummy, Splice(order, i, e), nodes + {e})
    ensures e.next == Around(order, i, dummy)
  {
    assert p.next == Around(order, i, dummy);
    e.next := p.next;
    p.next := e;
    ghost var after := Splice(order, i, e);
    SpliceMembers(order, nodes, i, e);
    forall k | 0 <= k < |after|
      ensures after[k].next == Around(after, k + 1, dummy)
    {
      if k < i {
        assert after[k] == order[k] && old(order[k].next) == Around(order, k + 1, dummy);
      } else if k > i {
        assert after[k] == order[k - 1] && old(order[k - 1].next) == Around(order, k, dummy);
      } else {
        assert after[k] == e;
      }
    }
  }

  method LinkBackward(p: LRUHandle, e: LRUHandle, ghost dummy: LRUHandle, ghost order: seq<LRUHandle>,
                      ghost nodes: set<LRUHandle>, ghost i: nat)
    requires ListOf(order, nodes) && dummy !in nodes && Backward(dummy, order, nodes) && i <= |order|
             && p == Around(order, i - 1, dummy) && e != dummy && e !in nodes && e.next == Around(order, i, dummy)
    modifies dummy`prev, nodes`prev, e`prev
    ensures ListOf(Splice(order, i, e), nodes + {e}) && Backward(dummy, Splice(order, i, e), nodes + {e})
  {
    e.prev := p;
    e.next.prev := e;
    ghost var after := Splice(order, i, e);
    SpliceMembers(order, nodes, i, e);
    forall k | 0 <= k < |after|
      ensures after[k].prev == Around(after, k - 1, dummy)
    {
      if k < i {
        assert after[k] == order[k] && old(order[k].prev) == Around(order, k - 1, dummy);
      } else if k > i {
        assert after[k] == order[k - 1] && old(order[k - 1].prev) == Around(order, k - 2, dummy);
      } else {
        assert after[k] == e;
      }
    }
  }
}
