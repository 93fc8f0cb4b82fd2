/** One shard of the LRU cache: the hash table, the LRU list with its two pools, and the usage counters. */
module LruShards {
  import opened LruHandles
  import opened LruTables
  import opened LruLists
  import opened LruCharges
  import opened Counting

  datatype Status = Ok | OkOverwritten | Incomplete

  /** What the high-priority pool may count for. */
  function PoolCapacity(capacity: nat, ratio: real): real {
    capacity as real * ratio
  }

  /** Where the pools meet once the high-priority pool has overflowed down to its capacity. */
  ghost function Overflow(order: seq<LRUHandle>, split: nat, poolCapacity: real): (r: nat)
    requires split <= |order|
    ensures split <= r <= |order|
    decreases |order| - split
  {
    if split == |order| || SumFrom(order, split) as real <= poolCapacity then split
    else Overflow(order, split + 1, poolCapacity)
  }

  lemma PoolCapacityNotNegative(capacity: nat, ratio: real)
    requires ratio >= 0.0
    ensures PoolCapacity(capacity, ratio) >= 0.0
  {
  }

  lemma OverflowStep(order: seq<LRUHandle>, split: nat, poolCapacity: real)
    requires split <= |order| && SumFrom(order, split) as real > poolCapacity >= 0.0
    ensures split < |order| && Overflow(order, split, poolCapacity) == Overflow(order, split + 1, poolCapacity)
  {
    SumFromStep(order, split);
  }

  /** No more entries overflow than must. */
  lemma {:induction false} OverflowIsLeast(order: seq<LRUHandle>, split: nat, poolCapacity: real)
    requires split <= |order| && poolCapacity >= 0.0
    ensures var r := Overflow(order, split, poolCapacity);
            && SumFrom(order, r) as real <= poolCapacity
            && forall k | split <= k < r :: SumFrom(order, k) as real > poolCapacity
    decreases |order| - split
  {
    if SumFrom(order, split) as real > poolCapacity {
      OverflowIsLeast(order, split + 1, poolCapacity);
    }
  }

  /** Letting entries overflow can end with the pool within its capacity exactly when that is not negative; otherwise
      the split pointer would run into the dummy head, which an assert forbids. */
  lemma OverflowEnds(order: seq<LRUHandle>, split: nat, poolCapacity: real)
    requires split <= |order|
    ensures (exists k | split <= k <= |order| :: SumFrom(order, k) as real <= poolCapacity) <==> poolCapacity >= 0.0
  {
    assert SumFrom(order, |order|) == 0;
  }

  /** How many of the oldest entries have to go until the usage is within the capacity. */
  ghost function Evictions(order: seq<LRUHandle>, usage: int, capacity: nat): (n: nat)
    ensures n <= |order|
  {
    if usage <= capacity || order == [] then 0
    else 1 + Evictions(order[1..], usage - order[0].totalCharge, capacity)
  }

  /** Evicting until the usage fits, and not one entry more, evicts that many. */
  lemma {:induction false} EvictedExactly(deleted: seq<LRUHandle>, rest: seq<LRUHandle>, usage: int, capacity: nat)
    requires usage - Sum(deleted) <= capacity || rest == []
    requires deleted != [] ==> usage - Sum(deleted) + deleted[|deleted| - 1].totalCharge > capacity
    ensures |deleted| == Evictions(deleted + rest, usage, capacity)
    decreases |deleted|
  {
    if deleted == [] {
      assert deleted + rest == rest;
    } else {
      LastIsPart(deleted);
      if |deleted| > 1 {
        LastIsPart(deleted[1..]);
      }
      EvictedExactly(deleted[1..], rest, usage - deleted[0].totalCharge, capacity);
      assert (deleted + rest)[1..] == deleted[1..] + rest;
    }
  }

  lemma {:induction false} LastIsPart(s: seq<LRUHandle>)
    requires s != []
    ensures s[|s| - 1].totalCharge <= Sum(s)
    decreases |s|
  {
    if |s| > 1 {
      LastIsPart(s[1..]);
    }
  }

  /** The charge of the high-priority pool after the `n` oldest entries have gone. */
  ghost function PoolAfter(order: seq<LRUHandle>, split: nat, n: nat): nat
    requires split <= |order| && n <= |order|
  {
    SumFrom(order, if n < split then split else n)
  }

  /** The pool flags of the entries say on which side of the split they are. */
  ghost predicate FlagsOk(order: seq<LRUHandle>, split: nat, nodes: set<LRUHandle>)
    requires ListOf(order, nodes)
    reads nodes`inHighPriPool
  {
    forall i {:trigger order[i].inHighPriPool} | 0 <= i < |order| :: order[i].inHighPriPool <==> i >= split
  }

  lemma FlagsAfterCut(order: seq<LRUHandle>, split: nat, nodes: set<LRUHandle>, i: nat)
    requires ListOf(order, nodes) && FlagsOk(order, split, nodes) && i < |order|
    ensures ListOf(Cut(order, i), nodes - {order[i]})
    ensures FlagsOk(Cut(order, i), if i < split then split - 1 else split, nodes - {order[i]})
    ensures order[i].inHighPriPool <==> i >= split
  {
    CutMembers(order, nodes, i);
    var after := Cut(order, i);
    assert forall k | 0 <= k < |after| :: after[k] == order[if k < i then k else k + 1];
  }

  lemma FlagsAfterSplice(order: seq<LRUHandle>, split: nat, nodes: set<LRUHandle>, e: LRUHandle)
    requires ListOf(order, nodes) && FlagsOk(order, split, nodes) && split <= |order|
    requires e !in nodes && !e.inHighPriPool
    ensures ListOf(Splice(order, split, e), nodes + {e}) && FlagsOk(Splice(order, split, e), split + 1, nodes + {e})
  {
    SpliceMembers(order, nodes, split, e);
    var after := Splice(order, split, e);
    assert forall k | 0 <= k < |after| && k != split :: after[k] == order[if k < split then k else k - 1];
  }

  lemma FlagsAfterAppend(order: seq<LRUHandle>, split: nat, nodes: set<LRUHandle>, e: LRUHandle)
    requires ListOf(order, nodes) && FlagsOk(order, split, nodes) && split <= |order|
    requires e !in nodes && e.inHighPriPool
    ensures ListOf(order + [e], nodes + {e}) && FlagsOk(order + [e], split, nodes + {e})
  {
    SpliceMembers(order, nodes, |order|, e);
    assert Splice(order, |order|, e) == order + [e];
  }

  /** What a list counts for after one more entry in front of the high-priority pool. */
  lemma SumsAfterSplice(order: seq<LRUHandle>, split: nat, e: LRUHandle)
    requires split <= |order|
    ensures Sum(Splice(order, split, e)) == Sum(order) + e.totalCharge
    ensures SumFrom(Splice(order, split, e), split + 1) == SumFrom(order, split)
    ensures |Splice(order, split, e)| == |order| + 1 && Splice(order, split, e)[split] == e
  {
    var after := Splice(order, split, e);
    assert Cut(after, split) == order;
    SumCut(after, split);
    assert after[split + 1..] == order[split..];
  }

  lemma SpliceAt(order: seq<LRUHandle>, i: nat, e: LRUHandle)
    requires i <= |order|
    ensures |Splice(order, i, e)| == |order| + 1 && Splice(order, i, e)[i] == e
  {
  }

  lemma SpliceAtEnd(order: seq<LRUHandle>, e: LRUHandle)
    ensures Splice(order, |order|, e) == order + [e]
  {
  }

  lemma SumsAfterAppend(order: seq<LRUHandle>, split: nat, e: LRUHandle)
    requires split <= |order|
    ensures Splice(order, |order|, e) == order + [e]
    ensures Sum(order + [e]) == Sum(order) + e.totalCharge
    ensures SumFrom(order + [e], split) == SumFrom(order, split) + e.totalCharge
  {
    SumFromAppend(order, split, e);
    SumAppendOne(order, e);
  }

  /** What the list and its high-priority pool count for after one entry has been taken out. */
  lemma SumsAfterCut(order: seq<LRUHandle>, split: nat, i: nat)
    requires i < |order| && split <= |order|
    ensures Sum(order) == Sum(Cut(order, i)) + order[i].totalCharge
    ensures i < split ==> SumFrom(Cut(order, i), split - 1) == SumFrom(order, split)
    ensures i >= split ==> SumFrom(order, split) == SumFrom(Cut(order, i), split) + order[i].totalCharge
  {
    hide Sum;
    SumCut(order, i);
    if i >= split {
      SumCut(order[split..], i - split);
      assert Cut(order[split..], i - split) == Cut(order, i)[split..];
    } else {
      assert Cut(order, i)[split - 1..] == order[split..];
    }
  }

  /** The split pointer after one entry has been taken out. */
  lemma AroundAfterCut(order: seq<LRUHandle>, nodes: set<LRUHandle>, split: nat, dummy: LRUHandle, i: nat)
    requires ListOf(order, nodes) && dummy !in nodes && i < |order| && split <= |order|
    ensures var lowPri := Around(order, split - 1, dummy);
            Around(Cut(order, i), (if i < split then split - 1 else split) - 1, dummy)
            == if lowPri == order[i] then Around(order, i - 1, dummy) else lowPri
    ensures Around(order, split - 1, dummy) == order[i] ==> i == split - 1
  {
    if split > 0 {
      assert Position(order, order[split - 1]) == split - 1 && Position(order, order[i]) == i;
    }
  }

  /** A list without `e`, and where its pools meet then. */
  ghost function Without(order: seq<LRUHandle>, e: LRUHandle): (r: seq<LRUHandle>)
    ensures |r| == if e in order then |order| - 1 else |order|
  {
    if e in order then Cut(order, Position(order, e)) else order
  }

  ghost function SplitWithout(order: seq<LRUHandle>, split: nat, e: LRUHandle): nat {
    if e in order && Position(order, e) < split then split - 1 else split
  }

  lemma WithoutIsCut(order: seq<LRUHandle>, split: nat, e: LRUHandle)
    requires e in order
    ensures Without(order, e) == Cut(order, Position(order, e))
    ensures SplitWithout(order, split, e) == if Position(order, e) < split then split - 1 else split
  {
  }

  ghost function Members(s: seq<LRUHandle>): set<LRUHandle> {
    set h | h in s
  }

  lemma MembersOfPrefix(s: seq<LRUHandle>, i: nat)
    requires NoDup(s) && i < |s|
    ensures s[i] !in Members(s[..i]) && Members(s[..i + 1]) == Members(s[..i]) + {s[i]}
  {
    assert s[..i + 1] == s[..i] + [s[i]];
    assert forall k | 0 <= k < i :: Position(s, s[k]) == k;
  }

  lemma MembersAfterAppend(s: seq<LRUHandle>, e: LRUHandle)
    requires NoDup(s) && e !in Members(s)
    ensures NoDup(s + [e]) && Members(s + [e]) == Members(s) + {e}
  {
    var after := s + [e];
    forall i | 0 <= i < |after|
      ensures Position(after, after[i]) == i
    {
      var k := Position(after, after[i]);
      if k < |s| && i < |s| {
        assert s[k] == s[i] && Position(s, s[k]) == k && Position(s, s[i]) == i;
      }
    }
  }

  class LRUCacheShard {
    const lru: LRUHandle
    const table: LRUHandleTable
    var lowPri: LRUHandle
    var capacity: nat
    var usage: nat
    var lruUsage: nat
    var highPriPoolUsage: nat
    var strictCapacityLimit: bool
    var highPriPoolRatio: real
    var highPriPoolCapacity: real
    /** The LRU list from oldest to newest, and how many of it are in the low-priority pool. */
    ghost var order: seq<LRUHandle>
    ghost var split: nat
    ghost var listed: set<LRUHandle>
    /** The handles in the table or referenced, those that clients hold references to, and those freed so far. */
    ghost var live: set<LRUHandle>
    ghost var external: set<LRUHandle>
    ghost var freed: set<LRUHandle>

    /** The split pointer separates a low-priority prefix from a high-priority suffix. */
    ghost predicate LinksOk()
      reads this`lowPri, this`order, this`split, this`listed, lru`next, lru`prev
      reads listed`next, listed`prev, listed`inHighPriPool
    {
      && ListOf(order, listed) && Circular(lru, order, listed)
      && split <= |order| && lowPri == Around(order, split - 1, lru)
      && FlagsOk(order, split, listed)
    }

    ghost predicate PoolsOk()
      reads this`lowPri, this`highPriPoolUsage, this`order, this`split
      reads this`listed, lru`next, lru`prev
      reads listed`next, listed`prev, listed`inHighPriPool
    {
      LinksOk() && highPriPoolUsage == SumFrom(order, split)
    }

    ghost predicate ListOk()
      reads this`lowPri, this`highPriPoolUsage, this`order, this`split, this`lruUsage
      reads this`listed, lru`next, lru`prev
      reads listed`next, listed`prev, listed`inHighPriPool
    {
      PoolsOk() && lruUsage == Sum(order)
    }

    /** A handle is in the table, on the list and referenced as its flags and counter say; it is in one of the three
        documented states: referenced and in the table, in the table only and then on the list, referenced only. */
    ghost predicate HandleOk(h: LRUHandle)
      reads this`listed, this`external, table`handles, h`inCache, h`refs, h`next, h`prev
    {
      HandleOkIn(h, table.handles)
    }

    ghost predicate HandleOkIn(h: LRUHandle, cached: set<LRUHandle>)
      reads this`listed, this`external, h`inCache, h`refs, h`next, h`prev
    {
      && (h.inCache <==> h in cached) && (h.refs > 0 <==> h in external)
      && (h.inCache || h.refs > 0)
      && (h in listed <==> h.inCache && h.refs == 0)
      && (h !in listed ==> h.next == null && h.prev == null)
    }

    /** Everything about the list and the handles. */
    ghost predicate EntriesOk()
      reads this, table`handles, lru`next, lru`prev
      reads live`inCache, live`refs, live`next, live`prev, live`inHighPriPool
    {
      && table.handles <= live && external <= live && listed <= live && lru !in live && freed !! live
      && ListOk() && (forall h | h in live :: HandleOk(h))
    }

    /** The same while the handles `es` are on their way from one state to another. */
    ghost predicate OthersOk(es: set<LRUHandle>)
      reads this, table`handles, lru`next, lru`prev
      reads live`inCache, live`refs, live`next, live`prev, live`inHighPriPool
    {
      && table.handles <= live && external <= live && listed <= live && lru !in live && freed !! live
      && ListOk() && (forall h | h in live && h !in es :: HandleOk(h))
    }

    ghost predicate CountersOk()
      reads this`usage, this`live, this`capacity, this`highPriPoolRatio, this`highPriPoolCapacity
    {
      && usage == Total(live)
      && highPriPoolCapacity == PoolCapacity(capacity, highPriPoolRatio)
      && (highPriPoolRatio > 0.0 ==> highPriPoolCapacity >= 0.0)
    }

    /** Holds between operations: a cache over its capacity has nothing left to evict. */
    ghost predicate Valid()
      reads this, table, table.list, table.handles, lru, live
    {
      table.Valid() && EntriesOk() && CountersOk() && (usage > capacity ==> order == [])
    }

    constructor (capacity: nat, strictCapacityLimit: bool, highPriPoolRatio: real)
      ensures Valid() && live == {} && freed == {} && fresh(table) && fresh(table.list) && fresh(lru)
      ensures order == [] && split == 0 && listed == {} && external == {} && table.handles == {} && table.elems == 0
      ensures usage == 0 && this.capacity == capacity && this.strictCapacityLimit == strictCapacityLimit
      ensures this.highPriPoolRatio == highPriPoolRatio
              && highPriPoolCapacity == capacity as real * highPriPoolRatio
    {
      hide LRUHandleTable.Valid;
      var dummy := new LRUHandle(0, 0, 0, false);
      table := new LRUHandleTable();
      lru, lowPri := dummy, dummy;
      this.capacity, usage, lruUsage, highPriPoolUsage := capacity, 0, 0, 0;
      this.strictCapacityLimit, this.highPriPoolRatio := strictCapacityLimit, highPriPoolRatio;
      highPriPoolCapacity := PoolCapacity(capacity, highPriPoolRatio);
      order, split, listed, live, external, freed := [], 0, {}, {}, {}, {};
      new;
      lru.next, lru.prev := lru, lru;
    }

    /** Unlinks the entry at position `i` and moves the split pointer off it. */
    method TakeOut(e: LRUHandle, ghost i: nat)
      requires LinksOk() && i < |order| && order[i] == e
      modifies this`lowPri, this`order, this`listed, this`split
      modifies lru`next, lru`prev, listed`next, listed`prev
      ensures LinksOk() && e.next == null && e.prev == null
      ensures listed == old(listed) - {e} && order == Cut(old(order), i)
      ensures split == if i < old(split) then old(split) - 1 else old(split)
    {
      hide Cut, FlagsOk, Circular;
      PreviousIs(e, i);
      AroundAfterCut(order, listed, split, lru, i);
      FlagsAfterCut(order, split, listed, i);
      if lowPri == e {
        lowPri := e.prev;
      }
      Unlink(e, lru, order, listed, i);
      split := if i < split then split - 1 else split;
      order, listed := Cut(order, i), listed - {e};
    }

    lemma PreviousIs(e: LRUHandle, i: nat)
      requires LinksOk() && i < |order| && order[i] == e
      ensures lru !in listed && e.prev == Around(order, i - 1, lru)
    {
    }

    /** Takes an entry off the list. */
    method LRURemove(e: LRUHandle)
      requires ListOk() && e in listed
      modifies this`lowPri, this`highPriPoolUsage, this`order, this`listed, this`split, this`lruUsage
      modifies lru`next, lru`prev, listed`next, listed`prev
      ensures ListOk() && e.next == null && e.prev == null
      ensures listed == old(listed) - {e}
      ensures order == Without(old(order), e) && split == SplitWithout(old(order), old(split), e)
    {
      hide LinksOk, Sum, SumFrom, Cut, Without, SplitWithout;
      ListedAt(e);
      ghost var i := Position(order, e);
      WithoutIsCut(order, split, e);
      SumsAfterCut(order, split, i);
      TakeOut(e, i);
      lruUsage := lruUsage - e.totalCharge;
      if e.inHighPriPool {
        highPriPoolUsage := highPriPoolUsage - e.totalCharge;
      }
    }

    lemma ListedAt(e: LRUHandle)
      requires LinksOk() && e in listed
      ensures e in order && split <= |order| && (e.inHighPriPool <==> Position(order, e) >= split)
    {
      assert order[Position(order, e)] == e;
    }

    /** Lets the oldest high-priority entries overflow into the low-priority pool. */
    method MaintainPoolSize()
      requires PoolsOk() && highPriPoolCapacity >= 0.0
      modifies this`lowPri, this`highPriPoolUsage, this`split, listed`inHighPriPool
      ensures PoolsOk() && split == Overflow(order, old(split), highPriPoolCapacity)
    {
      hide Circular, FlagsOk, ListOf, Sum, SumFrom;
      while highPriPoolUsage as real > highPriPoolCapacity
        invariant PoolsOk() && split >= old(split)
        invariant Overflow(order, old(split), highPriPoolCapacity) == Overflow(order, split, highPriPoolCapacity)
        decreases |order| - split
      {
        OverflowStep(order, split, highPriPoolCapacity);
        OverflowOne();
      }
    }

    method OverflowOne()
      requires PoolsOk() && highPriPoolUsage > 0
      modifies this`lowPri, this`highPriPoolUsage, this`split, listed`inHighPriPool
      ensures PoolsOk() && split == old(split) + 1
    {
      hide Sum, SumFrom;
      SumFromStep(order, split);
      assert lowPri.next == Around(order, split, lru) == order[split];
      assert Position(order, order[split]) == split;
      lowPri := lowPri.next;
      assert lowPri != lru;
      lowPri.inHighPriPool := false;
      highPriPoolUsage := highPriPoolUsage - lowPri.totalCharge;
      split := split + 1;
    }

    /** Puts an entry without references on the list: at the newest end if it is or was important, otherwise at the
        newest end of the low-priority pool. */
    method LRUInsert(e: LRUHandle)
      requires ListOk() && (highPriPoolRatio > 0.0 ==> highPriPoolCapacity >= 0.0) && e != lru && e !in listed
      requires e.next == null && e.prev == null
      modifies this`lowPri, this`highPriPoolUsage, this`order, this`listed, this`split, this`lruUsage
      modifies lru`next, lru`prev, listed`next, listed`prev, listed`inHighPriPool, e`next, e`prev, e`inHighPriPool
      ensures ListOk()
      ensures listed == old(listed) + {e}
      ensures if highPriPoolRatio > 0.0 && (e.isHighPri || e.hasHit)
              then order == old(order) + [e] && split == Overflow(order, old(split), highPriPoolCapacity)
              else order == Splice(old(order), old(split), e) && split == old(split) + 1
      ensures highPriPoolRatio > 0.0 && (e.isHighPri || e.hasHit) ==> highPriPoolUsage as real <= highPriPoolCapacity
    {
      hide PoolsOk, Splice, Sum, Overflow;
      if highPriPoolRatio > 0.0 && (e.isHighPri || e.hasHit) {
        InsertNewest(e);
        SplitInPools();
        MaintainPoolSize();
        WithinCapacity(old(split));
      } else {
        InsertLowPri(e);
      }
      lruUsage := lruUsage + e.totalCharge;
    }

    method InsertNewest(e: LRUHandle)
      requires PoolsOk() && e != lru && e !in listed
      modifies this`highPriPoolUsage, this`order, this`listed
      modifies lru`next, lru`prev, listed`next, listed`prev, e`next, e`prev, e`inHighPriPool
      ensures PoolsOk() && listed == old(listed) + {e}
      ensures order == old(order) + [e] && Sum(order) == Sum(old(order)) + e.totalCharge
    {
      hide LinksOk, Sum, SumFrom, Splice;
      SplitInPools();
      SumsAfterAppend(order, split, e);
      LinkNewest(e);
      highPriPoolUsage := highPriPoolUsage + e.totalCharge;
    }

    /** Links an entry at the newest end. */
    method LinkNewest(e: LRUHandle)
      requires LinksOk() && e != lru && e !in listed
      modifies this`order, this`listed
      modifies lru`next, lru`prev, listed`next, listed`prev, e`next, e`prev, e`inHighPriPool
      ensures LinksOk() && listed == old(listed) + {e} && order == old(order) + [e]
    {
      hide FlagsOk, Splice, Circular, ListOf;
      NewestIs();
      e.inHighPriPool := true;
      FlagsAfterAppend(order, split, listed, e);
      SpliceAtEnd(order, e);
      LinkBehind(lru.prev, e, lru, order, listed, |order|);
      order, listed := order + [e], listed + {e};
    }

    lemma NewestIs()
      requires LinksOk()
      ensures lru !in listed && lru.prev == Around(order, |order| - 1, lru)
    {
    }

    method InsertLowPri(e: LRUHandle)
      requires PoolsOk() && e != lru && e !in listed
      modifies this`lowPri, this`order, this`listed, this`split
      modifies lru`next, lru`prev, listed`next, listed`prev, e`next, e`prev, e`inHighPriPool
      ensures PoolsOk() && listed == old(listed) + {e}
      ensures order == Splice(old(order), old(split), e) && split == old(split) + 1
      ensures Sum(order) == Sum(old(order)) + e.totalCharge
    {
      hide LinksOk, Sum, SumFrom, Splice;
      SplitInPools();
      SumsAfterSplice(order, split, e);
      LinkLowPri(e);
    }

    /** Links an entry behind the low-priority part, of which it becomes the last. */
    method LinkLowPri(e: LRUHandle)
      requires LinksOk() && e != lru && e !in listed
      modifies this`lowPri, this`order, this`listed, this`split
      modifies lru`next, lru`prev, listed`next, listed`prev, e`next, e`prev, e`inHighPriPool
      ensures LinksOk() && listed == old(listed) + {e}
      ensures order == Splice(old(order), old(split), e) && split == old(split) + 1
    {
      hide FlagsOk, Splice, Circular, ListOf;
      SpliceAt(order, split, e);
      e.inHighPriPool := false;
      FlagsAfterSplice(order, split, listed, e);
      LinkBehind(lowPri, e, lru, order, listed, split);
      lowPri := e;
      order, listed, split := Splice(order, split, e), listed + {e}, split + 1;
    }

    /** Another reference to a handle. */
    method Reference(e: LRUHandle)
      requires EntriesOk() && e in live && (e.refs == 0 ==> e in listed)
      modifies this`lowPri, this`highPriPoolUsage, this`order, this`listed, this`split, this`lruUsage, this`external
      modifies lru`next, lru`prev, listed`next, listed`prev, e`refs
      ensures EntriesOk() && e.refs == old(e.refs) + 1 && external == old(external) + {e}
      ensures if old(e.refs) > 0 then order == old(order) && split == old(split)
              else order == Without(old(order), e) && split == SplitWithout(old(order), old(split), e)
    {
      hide ListOk;
      assert HandleOk(e);
      if e.refs == 0 {
        LRURemove(e);
      }
      e.refs := e.refs + 1;
      external := external + {e};
    }

    /** A hit takes the entry off the list if nobody referenced it, and adds a reference. */
    method Lookup(key: Key, hash: nat) returns (e: LRUHandle?)
      requires Valid()
      modifies this`lowPri, this`highPriPoolUsage, this`order, this`listed, this`split, this`lruUsage, this`external
      modifies lru`next, lru`prev, listed`next, listed`prev, live`refs, live`hasHit
      ensures Valid() && e == Find(table.handles, (hash, key))
      ensures e == null ==> order == old(order) && split == old(split) && external == old(external)
      ensures forall h | h in live && h != e :: h.refs == old(h.refs) && h.hasHit == old(h.hasHit)
      ensures e != null ==> e.refs == old(e.refs) + 1 && e.hasHit && external == old(external) + {e}
      ensures e != null && old(e.refs) > 0 ==> order == old(order) && split == old(split)
      ensures e != null && old(e.refs) == 0 ==>
                order == Without(old(order), e) && split == SplitWithout(old(order), old(split), e)
    {
      hide LRUHandleTable.Valid, ListOk, DistinctIds, ContentsOf, Total;
      e := table.Lookup(key, hash);
      if e != null {
        assert HandleOk(e);
        Reference(e);
        e.hasHit := true;
      }
    }

    /** Everything but the bound on the usage. */
    ghost predicate Inv()
      reads this, table, table.list, table.handles, lru, live
    {
      table.Valid() && EntriesOk() && CountersOk()
    }

    /** Takes an entry out of the table. */
    method DropFromTable(e: LRUHandle)
      requires table.Valid() && e in table.handles
      modifies table`elems, table`chains, table`handles, table.list, table.handles`nextHash, e`inCache
      ensures table.Valid() && table.handles == old(table.handles) - {e} && !e.inCache
    {
      FindItself(table.handles, e);
      var removed := table.Remove(e.key, e.hash);
      e.inCache := false;
    }

    /** Gives up the charge of a handle that is neither in the table nor referenced any more. */
    method Drop(e: LRUHandle, ghost es: set<LRUHandle>)
      requires OthersOk(es) && CountersOk() && e in es
      requires e in live && e !in table.handles && e !in listed && e !in external
      modifies this`usage, this`live
      ensures OthersOk(es - {e}) && (es == {e} ==> EntriesOk())
      ensures CountersOk() && live == old(live) - {e} && usage + e.totalCharge == old(usage)
    {
      hide ListOk, Total;
      TotalRemove(live, e);
      usage := usage - e.totalCharge;
      live := live - {e};
    }

    /** Takes an unreferenced handle that is in the table out of the cache. */
    method Forget(e: LRUHandle)
      requires table.Valid() && OthersOk({e}) && CountersOk() && e in table.handles && e !in listed && e !in external
      modifies this`usage, this`live, e`inCache
      modifies table`elems, table`chains, table`handles, table.list, table.handles`nextHash
      ensures Inv() && !e.inCache
      ensures live == old(live) - {e} && table.handles == old(table.handles) - {e}
      ensures usage + e.totalCharge == old(usage)
    {
      hide LRUHandleTable.Valid, ListOk, Total;
      DropFromTable(e);
      Drop(e, {e});
    }

    /** Takes an entry of the list out of the cache. */
    method Discard(e: LRUHandle)
      requires Inv() && e in listed
      modifies this`lowPri, this`highPriPoolUsage, this`order, this`listed, this`split, this`lruUsage
      modifies this`usage, this`live
      modifies lru`next, lru`prev, listed`next, listed`prev, e`inCache
      modifies table`elems, table`chains, table`handles, table.list, table.handles`nextHash
      ensures Inv() && e.refs == 0 && !e.inCache
      ensures order == Without(old(order), e) && split == SplitWithout(old(order), old(split), e)
      ensures listed == old(listed) - {e} && live == old(live) - {e} && table.handles == old(table.handles) - {e}
      ensures usage + e.totalCharge == old(usage)
    {
      hide LRUHandleTable.Valid, ListOk, Total, Without, SplitWithout;
      assert HandleOk(e);
      LRURemove(e);
      Forget(e);
    }

    /** Evicts the oldest entry of the list. */
    method EvictOldest() returns (e: LRUHandle)
      requires Inv() && order != []
      modifies this`lowPri, this`highPriPoolUsage, this`order, this`listed, this`split, this`lruUsage
      modifies this`usage, this`live
      modifies lru`next, lru`prev, listed`next, listed`prev, listed`inCache
      modifies table`elems, table`chains, table`handles, table.list, table.handles`nextHash
      ensures Inv() && e == old(order)[0] && e in old(live) && e.refs == 0 && !e.inCache
      ensures order == old(order)[1..] && split == if old(split) > 0 then old(split) - 1 else 0
      ensures listed == old(listed) - {e} && live == old(live) - {e} && table.handles == old(table.handles) - {e}
      ensures usage + e.totalCharge == old(usage)
    {
      hide LRUHandleTable.Valid, ListOk, OthersOk, HandleOk, Total, Without, SplitWithout;
      OldestIsFirst();
      e := lru.next;
      Discard(e);
    }

    lemma OldestIsFirst()
      requires ListOk() && order != []
      ensures lru.next == order[0] && order[0] in listed && Without(order, order[0]) == order[1..]
      ensures SplitWithout(order, split, order[0]) == if split > 0 then split - 1 else 0
    {
      assert Position(order, order[0]) == 0;
      assert Cut(order, 0) == order[1..];
    }

    /** Evicts the oldest entry after those of `deleted`. */
    method EvictOneMore(ghost deleted: seq<LRUHandle>, ghost before: set<LRUHandle>, ghost tableBefore: set<LRUHandle>)
      returns (e: LRUHandle)
      requires Inv() && order != [] && Evicted(deleted, before, tableBefore)
      modifies this`lowPri, this`highPriPoolUsage, this`order, this`listed, this`split, this`lruUsage
      modifies this`usage, this`live
      modifies lru`next, lru`prev, listed`next, listed`prev, listed`inCache
      modifies table`elems, table`chains, table`handles, table.list, table.handles`nextHash
      ensures Inv() && Evicted(deleted + [e], before, tableBefore)
      ensures listed <= old(listed) && table.handles <= old(table.handles)
      ensures [e] + order == old(order) && split == if old(split) > 0 then old(split) - 1 else 0
      ensures usage + e.totalCharge == old(usage)
    {
      hide LRUHandleTable.Valid, ListOk, HandleOk, NoDup, Members, CountersOk;
      EvictedAreGone(deleted, before, tableBefore);
      e := EvictOldest();
      EvictedOneMore(deleted, e, before, tableBefore);
    }

    /** Evicts from the oldest entry on until the charge fits or the list is empty, and not one entry more. The
        evicted handles are handed back to be freed. */
    method EvictFromLRU(charge: nat) returns (deleted: seq<LRUHandle>)
      requires Inv()
      modifies this`lowPri, this`highPriPoolUsage, this`order, this`listed, this`split, this`lruUsage
      modifies this`usage, this`live
      modifies lru`next, lru`prev, listed`next, listed`prev, listed`inCache
      modifies table`elems, table`chains, table`handles, table.list, table.handles`nextHash
      ensures Inv() && (usage + charge <= capacity || order == []) && listed <= old(listed)
      ensures deleted + order == old(order) && split == if |deleted| < old(split) then old(split) - |deleted| else 0
      ensures Evicted(deleted, old(live), old(table.handles)) && usage + Sum(deleted) == old(usage)
      ensures deleted != [] ==> usage + deleted[|deleted| - 1].totalCharge + charge > capacity
    {
      hide LRUHandleTable.Valid, EntriesOk, CountersOk, Evicted, Members, Sum;
      deleted := [];
      NothingEvicted();
      while usage + charge > capacity && lru.next != lru
        invariant Inv() && deleted + order == old(order)
        invariant split == if |deleted| < old(split) then old(split) - |deleted| else 0
        invariant listed <= old(listed) && table.handles <= old(table.handles)
        invariant Evicted(deleted, old(live), old(table.handles))
        invariant usage + Sum(deleted) == old(usage)
        invariant deleted != [] ==> usage + deleted[|deleted| - 1].totalCharge + charge > capacity
        decreases |order|
      {
        NextIsOldest();
        var e := EvictOneMore(deleted, old(live), old(table.handles));
        SumAppendOne(deleted, e);
        deleted := deleted + [e];
      }
      NextIsOldest();
    }

    lemma NextIsOldest()
      requires EntriesOk()
      ensures (lru.next == lru <==> order == []) && freed !! live
    {
    }

    lemma NothingEvicted()
      ensures Evicted([], live, table.handles) && Sum([]) == 0
    {
    }

    lemma EvictedAreGone(deleted: seq<LRUHandle>, before: set<LRUHandle>, tableBefore: set<LRUHandle>)
      requires Evicted(deleted, before, tableBefore)
      ensures forall i {:trigger deleted[i]} | 0 <= i < |deleted| :: deleted[i] !in live
    {
    }

    lemma EvictedOneMore(deleted: seq<LRUHandle>, e: LRUHandle, before: set<LRUHandle>, tableBefore: set<LRUHandle>)
      requires NoDup(deleted) && Members(deleted) <= before && e in before - Members(deleted)
      requires forall i {:trigger deleted[i]} | 0 <= i < |deleted| :: deleted[i].refs == 0 && !deleted[i].inCache
      requires live == before - Members(deleted) - {e} && table.handles == tableBefore - Members(deleted) - {e}
      requires e.refs == 0 && !e.inCache
      ensures Evicted(deleted + [e], before, tableBefore)
    {
      MembersAfterAppend(deleted, e);
    }

    /** The handles of `deleted` are no longer in use, and all that have left since `live` was live. */
    ghost predicate Evicted(deleted: seq<LRUHandle>, before: set<LRUHandle>, tableBefore: set<LRUHandle>)
      reads this`live, table`handles, deleted`refs, deleted`inCache
    {
      && NoDup(deleted)
      && (forall i {:trigger deleted[i]} | 0 <= i < |deleted| :: deleted[i].refs == 0 && !deleted[i].inCache)
      && live == before - Members(deleted) && table.handles == tableBefore - Members(deleted)
      && Members(deleted) <= before
    }

    /** Calls the deleter: once for each handle, when it is out of the cache and unreferenced. */
    method Free(e: LRUHandle)
      requires e.refs == 0 && !e.inCache && e !in live && e !in freed
      modifies this`freed
      ensures freed == old(freed) + {e}
    {
      freed := freed + {e};
    }

    method FreeAll(deleted: seq<LRUHandle>)
      requires NoDup(deleted)
      requires forall i | 0 <= i < |deleted| ::
                 deleted[i].refs == 0 && !deleted[i].inCache && deleted[i] !in live && deleted[i] !in freed
      modifies this`freed
      ensures freed == old(freed) + Members(deleted)
    {
      var i := 0;
      while i < |deleted|
        invariant 0 <= i <= |deleted|
        invariant freed == old(freed) + Members(deleted[..i])
      {
        MembersOfPrefix(deleted, i);
        Free(deleted[i]);
        i := i + 1;
      }
      assert deleted[..i] == deleted;
    }

    /** The pools are not resized: an entry leaves the high-priority pool at the next insertion only. */
    method SetCapacity(capacity: nat) returns (deleted: seq<LRUHandle>)
      requires Valid()
      modifies this`lowPri, this`highPriPoolUsage, this`order, this`listed, this`split, this`lruUsage
      modifies this`usage, this`live
      modifies this`capacity, this`highPriPoolCapacity, this`freed
      modifies lru`next, lru`prev, listed`next, listed`prev, listed`inCache
      modifies table`elems, table`chains, table`handles, table.list, table.handles`nextHash
      ensures Valid() && this.capacity == capacity && freed == old(freed) + Members(deleted)
      ensures deleted + order == old(order) && split == if |deleted| < old(split) then old(split) - |deleted| else 0
      ensures live == old(live) - Members(deleted) && highPriPoolRatio == old(highPriPoolRatio)
      ensures highPriPoolCapacity == capacity as real * highPriPoolRatio
      ensures table.handles == old(table.handles) - Members(deleted)
      ensures usage + Sum(deleted) == old(usage) && |deleted| == Evictions(old(order), old(usage), capacity)
      // What the pool counts for then, and so when its bound holds: a caller can tell beforehand.
      ensures old(split) <= |old(order)| && highPriPoolUsage == PoolAfter(old(order), old(split), |deleted|)
      ensures highPriPoolUsage as real <= highPriPoolCapacity
              <==> PoolAfter(old(order), old(split), Evictions(old(order), old(usage), capacity)) as real
                   <= highPriPoolCapacity
    {
      hide LRUHandleTable.Valid, EntriesOk, CountersOk, NoDup, Members, Sum;
      ChangeCapacity(capacity);
      AllLive();
      SplitWithinPools();
      deleted := EvictFromLRU(0);
      EvictedExactly(deleted, order, old(usage), capacity);
      PoolFacts(deleted, old(order), old(split));
      FreeEvicted(deleted, old(live), old(table.handles));
    }

    method ChangeCapacity(capacity: nat)
      requires Inv()
      modifies this`capacity, this`highPriPoolCapacity
      ensures Inv() && this.capacity == capacity && highPriPoolCapacity == capacity as real * highPriPoolRatio
    {
      hide LRUHandleTable.Valid, ListOk, HandleOk, Total;
      this.capacity := capacity;
      highPriPoolCapacity := PoolCapacity(capacity, highPriPoolRatio);
      if highPriPoolRatio > 0.0 {
        PoolCapacityNotNegative(capacity, highPriPoolRatio);
      }
    }

    lemma SplitWithinPools()
      requires EntriesOk()
      ensures split <= |order|
    {
    }

    lemma PoolFacts(deleted: seq<LRUHandle>, before: seq<LRUHandle>, splitBefore: nat)
      requires EntriesOk() && deleted + order == before && splitBefore <= |before|
      requires split == if |deleted| < splitBefore then splitBefore - |deleted| else 0
      ensures highPriPoolUsage == PoolAfter(before, splitBefore, |deleted|)
    {
      assert before[|deleted| + split..] == order[split..];
    }

    lemma EvictedAreNotFreed(
      deleted: seq<LRUHandle>, before: set<LRUHandle>, tableBefore: set<LRUHandle>, freedBefore: set<LRUHandle>)
      requires Evicted(deleted, before, tableBefore) && freedBefore !! before
      ensures NoDup(deleted) && Members(deleted) !! freedBefore
      ensures forall i {:trigger deleted[i]} | 0 <= i < |deleted| ::
                deleted[i] !in live && deleted[i] !in freedBefore && deleted[i].refs == 0 && !deleted[i].inCache
    {
      assert forall i {:trigger deleted[i]} | 0 <= i < |deleted| :: deleted[i] in Members(deleted);
    }

    /** Drops every entry that nobody references. */
    method EraseUnRefEntries() returns (deleted: seq<LRUHandle>)
      requires Valid()
      modifies this`lowPri, this`highPriPoolUsage, this`order, this`listed, this`split, this`lruUsage
      modifies this`usage, this`live
      modifies this`freed
      modifies lru`next, lru`prev, listed`next, listed`prev, listed`inCache
      modifies table`elems, table`chains, table`handles, table.list, table.handles`nextHash
      ensures Valid() && order == [] && deleted == old(order) && freed == old(freed) + Members(deleted)
      ensures live == old(live) - Members(deleted) && table.handles == old(table.handles) - Members(deleted)
      ensures usage + Sum(deleted) == old(usage)
    {
      hide LRUHandleTable.Valid, EntriesOk, CountersOk, Evicted, Members, Sum;
      deleted := [];
      NothingEvicted();
      NextIsOldest();
      while lru.next != lru
        invariant Inv() && freed == old(freed) && deleted + order == old(order) && (lru.next == lru <==> order == [])
        invariant listed <= old(listed) && table.handles <= old(table.handles)
        invariant Evicted(deleted, old(live), old(table.handles))
        invariant usage + Sum(deleted) == old(usage)
        decreases |order|
      {
        var e := EvictOneMore(deleted, old(live), old(table.handles));
        SumAppendOne(deleted, e);
        deleted := deleted + [e];
        NextIsOldest();
      }
      FreeEvicted(deleted, old(live), old(table.handles));
    }

    method SetHighPriorityPoolRatio(ratio: real)
      requires Valid() && capacity as real * ratio >= 0.0
      modifies this`lowPri, this`highPriPoolUsage, this`split, this`highPriPoolRatio, this`highPriPoolCapacity
      modifies listed`inHighPriPool
      ensures Valid() && highPriPoolRatio == ratio && order == old(order)
      ensures highPriPoolCapacity == capacity as real * ratio
      ensures split == Overflow(order, old(split), highPriPoolCapacity)
              && highPriPoolUsage as real <= highPriPoolCapacity
    {
      hide LRUHandleTable.Valid, Circular, ListOf, FlagsOk, HandleOk, Overflow, Sum, SumFrom, Total;
      highPriPoolRatio := ratio;
      highPriPoolCapacity := PoolCapacity(capacity, highPriPoolRatio);
      MaintainPoolSize();
      WithinCapacity(old(split));
    }

    lemma WithinCapacity(before: nat)
      requires PoolsOk() && highPriPoolCapacity >= 0.0 && before <= |order|
      requires split == Overflow(order, before, highPriPoolCapacity)
      ensures highPriPoolUsage as real <= highPriPoolCapacity
    {
      OverflowIsLeast(order, before, highPriPoolCapacity);
    }

    /** Another reference to a handle that a client holds. */
    method Ref(e: LRUHandle)
      requires Valid() && e in external
      modifies e`refs
      ensures Valid() && e.refs == old(e.refs) + 1
    {
      hide LRUHandleTable.Valid, ListOk;
      assert HandleOk(e);
      e.refs := e.refs + 1;
    }

    /** Gives up a reference. The entry stays in the cache if it was not the last one, or if it is in the table and
        the cache is not over its capacity. True when the handle was freed. */
    method Release(e: LRUHandle?, forceErase: bool) returns (lastReference: bool)
      requires Valid() && (e != null ==> e in external)
      modifies this`lowPri, this`highPriPoolUsage, this`order, this`listed, this`split, this`lruUsage
      modifies this`usage, this`live
      modifies this`external, this`freed
      modifies lru`next, lru`prev, listed`next, listed`prev, listed`inHighPriPool
      modifies Nodes(e)`refs, Nodes(e)`inCache, Nodes(e)`next, Nodes(e)`prev, Nodes(e)`inHighPriPool
      modifies table`elems, table`chains, table`handles, table.list, table.handles`nextHash
      ensures Valid() && (e != null ==> e.refs == old(e.refs) - 1)
      ensures external == if e != null && e.refs == 0 then old(external) - {e} else old(external)
      ensures lastReference
              <==> e != null && e.refs == 0 && (!old(e.inCache) || old(usage) > capacity || forceErase)
      ensures if lastReference
              then live == old(live) - {e} && table.handles == old(table.handles) - {e} && freed == old(freed) + {e}
                   && usage + e.totalCharge == old(usage)
              else && live == old(live) && table.handles == old(table.handles) && freed == old(freed)
                   && usage == old(usage)
      ensures if e == null || e.refs > 0 || lastReference then order == old(order) && split == old(split)
              else if highPriPoolRatio > 0.0 && (e.isHighPri || e.hasHit)
              then order == old(order) + [e] && split == Overflow(order, old(split), highPriPoolCapacity)
              else order == Splice(old(order), old(split), e) && split == old(split) + 1
    {
      hide LRUHandleTable.Valid, OthersOk, EntriesOk, CountersOk, Overflow, Splice;
      if e == null {
        return false;
      }
      AllLive();
      lastReference := Unref(e);
      if lastReference {
        if !e.inCache {
          Drop(e, {e});
        } else if usage > capacity || forceErase {
          assert order == [] || forceErase;
          Forget(e);
        } else {
          Relist(e);
          lastReference := false;
        }
      }
      if lastReference {
        FreeDropped(e);
      }
    }

    /** True for the last reference. */
    method Unref(e: LRUHandle) returns (last: bool)
      requires EntriesOk() && e in external
      modifies e`refs, this`external
      ensures e.refs == old(e.refs) - 1 && (last <==> e.refs == 0)
      ensures external == if last then old(external) - {e} else old(external)
      ensures if last then OthersOk({e}) && e !in listed && e.next == null && e.prev == null else EntriesOk()
      ensures e.inCache <==> e in table.handles
    {
      hide ListOk;
      assert HandleOk(e);
      e.refs := e.refs - 1;
      last := e.refs == 0;
      if last {
        external := external - {e};
      }
    }

    /** Puts an entry that has lost its last reference on the list. */
    method Relist(e: LRUHandle)
      requires OthersOk({e}) && e in live && e.inCache && e in table.handles && e !in external && e !in listed
      requires e.refs == 0 && e.next == null && e.prev == null
      requires highPriPoolRatio > 0.0 ==> highPriPoolCapacity >= 0.0
      modifies this`lowPri, this`highPriPoolUsage, this`order, this`listed, this`split, this`lruUsage
      modifies lru`next, lru`prev, listed`next, listed`prev, listed`inHighPriPool, e`next, e`prev, e`inHighPriPool
      ensures EntriesOk() && listed == old(listed) + {e}
      ensures if highPriPoolRatio > 0.0 && (e.isHighPri || e.hasHit)
              then order == old(order) + [e] && split == Overflow(order, old(split), highPriPoolCapacity)
              else order == Splice(old(order), old(split), e) && split == old(split) + 1
    {
      hide ListOk, Overflow, Splice;
      LRUInsert(e);
    }

    /** Takes the entry with this key out of the table; it is freed unless it is referenced. */
    method Erase(key: Key, hash: nat) returns (e: LRUHandle?)
      requires Valid()
      modifies this`lowPri, this`highPriPoolUsage, this`order, this`listed, this`split, this`lruUsage
      modifies this`usage, this`live
      modifies this`freed
      modifies lru`next, lru`prev, listed`next, listed`prev
      modifies table`elems, table`chains, table`handles, table.list, table.handles`nextHash, table.handles`inCache
      ensures Valid() && e == Find(old(table.handles), (hash, key)) && external == old(external)
      ensures table.handles == old(table.handles) - Nodes(e)
      ensures if e != null && e in old(listed)
              then && live == old(live) - {e} && freed == old(freed) + {e} && usage + e.totalCharge == old(usage)
                   && order == Without(old(order), e) && split == SplitWithout(old(order), old(split), e)
              else && live == old(live) && freed == old(freed) && usage == old(usage)
                   && order == old(order) && split == old(split)
    {
      hide LRUHandleTable.Valid, ListOk, HandleOk, Total, Without, SplitWithout, DistinctIds, ContentsOf;
      e := Unmap(key, hash);
      if e != null && e.refs == 0 {
        Retire(e, {e});
        Free(e);
      }
    }

    /** Takes the entry with this key out of the table only. */
    method Unmap(key: Key, hash: nat) returns (e: LRUHandle?)
      requires table.Valid() && EntriesOk()
      modifies table`elems, table`chains, table`handles, table.list, table.handles`nextHash, table.handles`inCache
      ensures table.Valid() && e == Find(old(table.handles), (hash, key))
              && table.handles == old(table.handles) - Nodes(e)
      ensures e == null ==> EntriesOk()
      ensures e != null ==> e in old(table.handles) && OthersOk({e}) && !e.inCache && (e in listed <==> e.refs == 0)
                            && (e.refs > 0 <==> e in external)
      ensures e != null && e.refs > 0 ==> EntriesOk()
    {
      hide LRUHandleTable.Valid, ListOk, DistinctIds, ContentsOf, HandleOkIn;
      ghost var before := table.handles;
      assert forall h | h in live :: HandleOk(h) && HandleOkIn(h, before);
      e := table.Remove(key, hash);
      if e == null {
        assert before - Nodes(e) == before;
      } else {
        HandleIs(e, before);
        e.inCache := false;
        OthersAfterUnmap(e, before);
      }
    }

    lemma HandleIs(e: LRUHandle, cached: set<LRUHandle>)
      requires HandleOkIn(e, cached) && e in cached
      ensures e.inCache && (e in listed <==> e.refs == 0) && (e.refs > 0 <==> e in external)
      ensures e.refs > 0 ==> e.next == null && e.prev == null
    {
    }

    lemma OthersAfterUnmap(e: LRUHandle, before: set<LRUHandle>)
      requires table.handles == before - {e} && before <= live && e in before && !e.inCache
      requires external <= live && listed <= live && lru !in live && freed !! live && ListOk()
      requires forall h | h in live && h != e :: HandleOkIn(h, before)
      requires (e in listed <==> e.refs == 0) && (e.refs > 0 <==> e in external)
      requires e.refs > 0 ==> e.next == null && e.prev == null
      ensures OthersOk({e}) && (e.refs > 0 ==> EntriesOk())
    {
      hide ListOk;
    }

    /** Takes an entry that has left the table off the list. */
    method Retire(e: LRUHandle, ghost es: set<LRUHandle>)
      requires OthersOk(es) && CountersOk() && e in es
      requires e in live && e !in table.handles && e in listed && e !in external
      modifies this`lowPri, this`highPriPoolUsage, this`order, this`listed, this`split, this`lruUsage
      modifies this`usage, this`live
      modifies lru`next, lru`prev, listed`next, listed`prev
      ensures OthersOk(es - {e}) && (es == {e} ==> EntriesOk())
      ensures CountersOk() && live == old(live) - {e} && usage + e.totalCharge == old(usage)
      ensures listed == old(listed) - {e}
      ensures order == Without(old(order), e) && split == SplitWithout(old(order), old(split), e)
    {
      hide Circular, FlagsOk, Total, Without, SplitWithout, Sum, SumFrom;
      LRURemove(e);
      Drop(e, es);
    }

    /** Counts a new handle. */
    method Adopt(e: LRUHandle)
      requires EntriesOk() && CountersOk() && e !in live && e !in freed && e != lru
      modifies this`usage, this`live
      ensures OthersOk({e}) && CountersOk() && live == old(live) + {e} && usage == old(usage) + e.totalCharge
    {
      hide ListOk, Total;
      TotalAdd(live, e);
      usage := usage + e.totalCharge;
      live := live + {e};
    }

    /** Puts a new handle into the table; the one it replaces is no longer in the cache. */
    method Map(e: LRUHandle) returns (replaced: LRUHandle?)
      requires table.Valid() && OthersOk({e}) && e in live && e !in table.handles
      requires RoomFor(table.handles, table.list.Length, e.Id())
      modifies table, table.list, table.handles`nextHash, e`nextHash
      ensures table.Valid() && OthersOk({e} + Nodes(replaced)) && (table.list == old(table.list) || fresh(table.list))
      ensures replaced == Find(old(table.handles), e.Id())
              && table.handles == old(table.handles) - Nodes(replaced) + {e}
      ensures replaced != null ==> replaced in old(table.handles) && WasCached(replaced)
    {
      hide LRUHandleTable.Valid, OthersOk, HandleOk, WasCached, DistinctIds, ContentsOf;
      AllCached(e);
      replaced := MapInTable(e);
    }

    lemma AllCached(e: LRUHandle)
      requires OthersOk({e}) && e !in table.handles
      ensures forall h | h in table.handles :: WasCached(h)
    {
      forall h | h in table.handles
        ensures WasCached(h)
      {
        assert HandleOk(h);
      }
    }

    method MapInTable(e: LRUHandle) returns (replaced: LRUHandle?)
      requires table.Valid() && OthersOk({e}) && e in live && e !in table.handles
      requires RoomFor(table.handles, table.list.Length, e.Id())
      modifies table, table.list, table.handles`nextHash, e`nextHash
      ensures table.Valid() && OthersOk({e} + Nodes(replaced)) && (table.list == old(table.list) || fresh(table.list))
      ensures replaced == Find(old(table.handles), e.Id())
              && table.handles == old(table.handles) - Nodes(replaced) + {e}
      ensures replaced != null ==> replaced in old(table.handles)
    {
      hide LRUHandleTable.Valid, ListOk, DistinctIds, ContentsOf, HandleOkIn;
      ghost var before := table.handles;
      assert forall h | h in live && h != e :: HandleOk(h) && HandleOkIn(h, before);
      replaced := table.Insert(e);
      OthersAfterMap(e, replaced, before);
    }

    /** A change of the table concerns only the handles that it puts in or lets go of. */
    lemma OthersAfterMap(e: LRUHandle, replaced: LRUHandle?, before: set<LRUHandle>)
      requires table.handles == before - Nodes(replaced) + {e} && before <= live && e in live
      requires external <= live && listed <= live && lru !in live && freed !! live && ListOk()
      requires forall h | h in live && h != e :: HandleOkIn(h, before)
      ensures OthersOk({e} + Nodes(replaced))
    {
      hide ListOk;
    }

    /** A handle that the table has just let go of. */
    ghost predicate WasCached(h: LRUHandle)
      reads this`listed, this`external, h`refs, h`next, h`prev
    {
      && (h.refs > 0 <==> h in external) && (h in listed <==> h.refs == 0)
      && (h !in listed ==> h.next == null && h.prev == null)
    }

    /** The handle that a new one replaced leaves the cache; it is retired unless it is referenced. */
    method Supersede(e: LRUHandle, replaced: LRUHandle) returns (retired: bool)
      requires OthersOk({e, replaced}) && CountersOk() && WasCached(replaced)
      requires replaced in live && replaced !in table.handles && e != replaced && e !in listed && e != lru
      modifies this`lowPri, this`highPriPoolUsage, this`order, this`listed, this`split, this`lruUsage
      modifies this`usage, this`live
      modifies lru`next, lru`prev, listed`next, listed`prev, replaced`inCache
      ensures OthersOk({e}) && CountersOk() && !replaced.inCache && (retired <==> replaced.refs == 0)
      ensures listed == old(listed) - {replaced}
      ensures if retired
              then && live == old(live) - {replaced} && usage + replaced.totalCharge == old(usage)
                   && order == Without(old(order), replaced) && split == SplitWithout(old(order), old(split), replaced)
              else live == old(live) && usage == old(usage) && order == old(order) && split == old(split)
    {
      hide ListOk, Total, Without, SplitWithout;
      replaced.inCache := false;
      retired := replaced.refs == 0;
      if retired {
        Retire(replaced, {e, replaced});
        assert {e, replaced} - {replaced} == {e};
      }
    }

    /** The reference that Insert makes for its caller. */
    method FirstReference(e: LRUHandle)
      requires OthersOk({e}) && e in live && e.inCache && e in table.handles && e !in external && e !in listed
      requires e.refs == 0 && e.next == null && e.prev == null
      modifies this`external, e`refs
      ensures EntriesOk() && external == old(external) + {e} && e.refs == 1
    {
      hide ListOk;
      e.refs := e.refs + 1;
      external := external + {e};
    }

    /** Where Insert leaves the list that was `base`: a handle for the caller is not on it. */
    ghost predicate Placed(e: LRUHandle, keepHandle: bool, base: seq<LRUHandle>, baseSplit: nat)
      reads this`order, this`split, this`highPriPoolRatio, this`highPriPoolCapacity
    {
      if keepHandle then order == base && split == baseSplit
      else
        && baseSplit <= |base|
        && if highPriPoolRatio > 0.0 && e.isHighPri
           then order == base + [e] && split == Overflow(base + [e], baseSplit, highPriPoolCapacity)
           else order == Splice(base, baseSplit, e) && split == baseSplit + 1
    }

    /** The part of Insert that puts the new handle into the cache. `base` is the list without the handle it
        replaced. */
    method Admit(e: LRUHandle, keepHandle: bool)
      returns (replaced: LRUHandle?, retired: bool, ghost base: seq<LRUHandle>, ghost baseSplit: nat)
      requires Inv() && e !in live && e !in freed && e != lru && RoomFor(table.handles, table.list.Length, e.Id())
      requires e.inCache && e.refs == 0 && e.next == null && e.prev == null && !e.hasHit
      modifies this`lowPri, this`highPriPoolUsage, this`order, this`listed, this`split, this`lruUsage
      modifies this`usage, this`live
      modifies this`external, lru`next, lru`prev, listed`next, listed`prev, listed`inHighPriPool
      modifies e`nextHash, e`next, e`prev, e`refs, e`inHighPriPool
      modifies table, table.list, table.handles`nextHash, table.handles`inCache
      ensures Inv() && (table.list == old(table.list) || fresh(table.list))
      ensures replaced == Find(old(table.handles), e.Id())
              && table.handles == old(table.handles) - Nodes(replaced) + {e}
      ensures replaced != null ==> replaced in old(table.handles) && !replaced.inCache
      ensures retired <==> replaced != null && replaced.refs == 0
      ensures if retired
              then && live == old(live) + {e} - {replaced} && usage + replaced.totalCharge == old(usage) + e.totalCharge
                   && base == Without(old(order), replaced)
                   && baseSplit == SplitWithout(old(order), old(split), replaced)
              else && live == old(live) + {e} && usage == old(usage) + e.totalCharge
                   && base == old(order) && baseSplit == old(split)
      ensures external == old(external) + (if keepHandle then {e} else {}) && e.refs == (if keepHandle then 1 else 0)
      ensures Placed(e, keepHandle, base, baseSplit)
    {
      hide LRUHandleTable.Valid, EntriesOk, OthersOk, CountersOk, Without, SplitWithout, Splice, Overflow, Find, Nodes;
      AllLive();
      replaced, retired := Exchange(e);
      SplitWithinList({e});
      base, baseSplit := order, split;
      if keepHandle {
        FirstReference(e);
      } else {
        Relist(e);
      }
    }

    /** Puts a new handle into the table, in the place of the one with its key. */
    method Exchange(e: LRUHandle) returns (replaced: LRUHandle?, retired: bool)
      requires Inv() && e !in live && e !in freed && e != lru && RoomFor(table.handles, table.list.Length, e.Id())
      modifies this`lowPri, this`highPriPoolUsage, this`order, this`listed, this`split, this`lruUsage
      modifies this`usage, this`live, lru`next, lru`prev, listed`next, listed`prev
      modifies e`nextHash, table, table.list, table.handles`nextHash, table.handles`inCache
      ensures table.Valid() && OthersOk({e}) && CountersOk() && e !in listed && listed <= old(listed)
      ensures table.list == old(table.list) || fresh(table.list)
      ensures replaced == Find(old(table.handles), e.Id())
              && table.handles == old(table.handles) - Nodes(replaced) + {e}
      ensures replaced != null ==> replaced in old(table.handles) && !replaced.inCache
      ensures retired <==> replaced != null && replaced.refs == 0
      ensures if retired
              then && live == old(live) + {e} - {replaced} && usage + replaced.totalCharge == old(usage) + e.totalCharge
                   && order == Without(old(order), replaced)
                   && split == SplitWithout(old(order), old(split), replaced)
              else && live == old(live) + {e} && usage == old(usage) + e.totalCharge
                   && order == old(order) && split == old(split)
    {
      hide LRUHandleTable.Valid, EntriesOk, OthersOk, ListOk, CountersOk, WasCached, Without, SplitWithout, Find;
      AllLive();
      Adopt(e);
      replaced := Map(e);
      retired := false;
      if replaced == null {
        assert {e} + Nodes(replaced) == {e};
      } else {
        assert {e} + Nodes(replaced) == {e, replaced};
        retired := Supersede(e, replaced);
      }
    }

    lemma Facts()
      requires Valid()
      ensures listed <= live && highPriPoolUsage == SumFrom(order, split) && usage == Total(live)
    {
    }

    lemma SplitInPools()
      requires PoolsOk()
      ensures split <= |order|
    {
    }

    lemma SplitWithinList(es: set<LRUHandle>)
      requires OthersOk(es) && CountersOk()
      ensures split <= |order| && (highPriPoolRatio > 0.0 ==> highPriPoolCapacity >= 0.0)
    {
    }

    lemma AllLive()
      requires EntriesOk() && CountersOk()
      ensures table.handles <= live && external <= live && listed <= live && lru !in live && freed !! live
      ensures highPriPoolRatio > 0.0 ==> highPriPoolCapacity >= 0.0
    {
    }

    /** Evicts until the charge fits, then puts a new entry in, unless it does not fit and has to be turned away. */
    method Insert(key: Key, hash: nat, charge: nat, keepHandle: bool, isHighPri: bool)
      returns (s: Status, handle: LRUHandle?, e: LRUHandle, evicted: seq<LRUHandle>, replaced: LRUHandle?,
               ghost base: seq<LRUHandle>, ghost baseSplit: nat)
      requires Valid()
      // The table has room for the entry, or another one goes, or this one is turned away.
      requires RoomFor(table.handles, table.list.Length, (hash, key))
               || (usage + charge > capacity && (order != [] || strictCapacityLimit || !keepHandle))
      modifies this`lowPri, this`highPriPoolUsage, this`order, this`listed, this`split, this`lruUsage
      modifies this`usage, this`live
      modifies this`external, this`freed
      modifies lru`next, lru`prev, listed`next, listed`prev, listed`inHighPriPool, listed`inCache
      modifies table, table.list, table.handles`nextHash, table.handles`inCache
      ensures Valid() && fresh(e) && e.key == key && e.hash == hash && e.totalCharge == charge
              && e.isHighPri == isHighPri
      ensures table.list == old(table.list) || fresh(table.list)
      ensures replaced != null ==> replaced in old(table.handles)
      // Eviction: the oldest entries, and no more of them than needed.
      ensures evicted <= old(order) && Members(evicted) <= old(live)
      ensures var left := old(usage) - Sum(evicted);
              && (left + charge <= capacity || evicted == old(order))
              && (evicted != [] ==> left + evicted[|evicted| - 1].totalCharge + charge > capacity)
      // Turned away.
      ensures var turnedAway := old(usage) - Sum(evicted) + charge > capacity && (strictCapacityLimit || !keepHandle);
              && (s == Incomplete <==> turnedAway && keepHandle)
              && (s == OkOverwritten <==> !turnedAway && replaced != null)
              && handle == (if !turnedAway && keepHandle then e else null)
              && (turnedAway ==>
                    && table.handles == old(table.handles) - Members(evicted) && order == old(order)[|evicted|..]
                    && live == old(live) - Members(evicted) && external == old(external) && replaced == null
                    && usage == old(usage) - Sum(evicted)
                    && freed == old(freed) + Members(evicted) + (if keepHandle then {} else {e}))
      // Put in, in place of the entry with the same key that was not evicted.
              && (!turnedAway ==>
                    && var retired := replaced != null && replaced.refs == 0;
                       var gone := Members(evicted) + (if retired then {replaced} else {});
                    && table.handles == old(table.handles) - Members(evicted) - Nodes(replaced) + {e}
                    && DistinctIds(old(table.handles) - Members(evicted))
                    && replaced == Find(old(table.handles) - Members(evicted), (hash, key))
                    && live == old(live) - gone + {e} && external == old(external) + (if keepHandle then {e} else {})
                    && usage == old(usage) - Sum(evicted) + charge - (if retired then replaced.totalCharge else 0)
                    && freed == old(freed) + gone && e.refs == (if keepHandle then 1 else 0)
                    && var rest := old(order)[|evicted|..];
                       var restSplit := if |evicted| < old(split) then old(split) - |evicted| else 0;
                    && base == (if retired then Without(rest, replaced) else rest)
                    && baseSplit == (if retired then SplitWithout(rest, restSplit, replaced) else restSplit)
                    && Placed(e, keepHandle, base, baseSplit))
    {
      hide LRUHandleTable.Valid, EntriesOk, OthersOk, CountersOk, Members, Sum, Without, SplitWithout, Find, Nodes,
           DistinctIds, Placed, RoomFor;
      e := new LRUHandle(key, hash, charge, isHighPri);
      evicted := MakeRoom(e, strictCapacityLimit || !keepHandle);
      s, handle, replaced, base, baseSplit := Settle(e, keepHandle);
    }

    /** The part of Insert after the eviction. */
    method Settle(e: LRUHandle, keepHandle: bool)
      returns (s: Status, handle: LRUHandle?, replaced: LRUHandle?, ghost base: seq<LRUHandle>, ghost baseSplit: nat)
      requires Inv() && e !in live && e !in freed && e != lru
      requires RoomFor(table.handles, table.list.Length, e.Id())
               || (usage + e.totalCharge > capacity && (strictCapacityLimit || !keepHandle))
      requires e.inCache && e.refs == 0 && e.next == null && e.prev == null && !e.hasHit && DistinctIds(table.handles)
      requires usage + e.totalCharge <= capacity || order == []
      modifies this`lowPri, this`highPriPoolUsage, this`order, this`listed, this`split, this`lruUsage
      modifies this`usage, this`live
      modifies this`external, this`freed, lru`next, lru`prev, listed`next, listed`prev, listed`inHighPriPool
      modifies e`nextHash, e`next, e`prev, e`refs, e`inHighPriPool, e`inCache
      modifies table, table.list, table.handles`nextHash, table.handles`inCache
      ensures Valid() && (table.list == old(table.list) || fresh(table.list))
      ensures replaced != null ==> replaced in old(table.handles)
      ensures var turnedAway := old(usage) + e.totalCharge > capacity && (strictCapacityLimit || !keepHandle);
              && (s == Incomplete <==> turnedAway && keepHandle)
              && (s == OkOverwritten <==> !turnedAway && replaced != null)
              && handle == (if !turnedAway && keepHandle then e else null)
              && if turnedAway
                 then && table.handles == old(table.handles) && order == old(order) && live == old(live)
                      && external == old(external) && replaced == null && usage == old(usage)
                      && freed == old(freed) + (if keepHandle then {} else {e})
                 else && var retired := replaced != null && replaced.refs == 0;
                         var gone := if retired then {replaced} else {};
                      && table.handles == old(table.handles) - Nodes(replaced) + {e}
                      && replaced == Find(old(table.handles), e.Id())
                      && live == old(live) + {e} - gone && freed == old(freed) + gone
                      && external == old(external) + (if keepHandle then {e} else {})
                      && usage == old(usage) + e.totalCharge - (if retired then replaced.totalCharge else 0)
                      && e.refs == (if keepHandle then 1 else 0)
                      && base == (if retired then Without(old(order), replaced) else old(order))
                      && baseSplit == (if retired then SplitWithout(old(order), old(split), replaced) else old(split))
                      && Placed(e, keepHandle, base, baseSplit)
    {
      hide LRUHandleTable.Valid, EntriesOk, OthersOk, CountersOk, Without, SplitWithout, Find, Nodes, DistinctIds;
      handle, replaced, s := null, null, Ok;
      base, baseSplit := order, split;
      if usage + e.totalCharge > capacity && (strictCapacityLimit || !keepHandle) {
        if keepHandle {
          s := Incomplete;
        } else {
          TurnAway(e);
        }
      } else {
        replaced, base, baseSplit := AdmitAndFree(e, keepHandle);
        if replaced != null {
          s := OkOverwritten;
        }
        if keepHandle {
          handle := e;
        }
      }
    }

    /** Frees a handle that the cache has let go of, or one that did not get into it. */
    method FreeDropped(e: LRUHandle)
      requires Inv() && e !in live && e !in freed && e.refs == 0 && !e.inCache
      modifies this`freed
      ensures Inv() && freed == old(freed) + {e}
    {
      hide LRUHandleTable.Valid, ListOk, HandleOk, CountersOk;
      Free(e);
    }

    method TurnAway(e: LRUHandle)
      requires Inv() && e !in live && e !in freed && e != lru && e.refs == 0
      modifies this`freed, e`inCache
      ensures Inv() && freed == old(freed) + {e}
    {
      hide LRUHandleTable.Valid, ListOk, HandleOk, CountersOk;
      e.inCache := false;
      FreeDropped(e);
    }

    /** Evicts for Insert. The handles are freed at once instead of after the mutex has been released. */
    method MakeRoom(e: LRUHandle, ghost away: bool) returns (evicted: seq<LRUHandle>)
      requires Inv()
      requires RoomFor(table.handles, table.list.Length, e.Id())
               || (usage + e.totalCharge > capacity && (order != [] || away))
      modifies this`lowPri, this`highPriPoolUsage, this`order, this`listed, this`split, this`lruUsage
      modifies this`usage, this`live
      modifies this`freed, lru`next, lru`prev, listed`next, listed`prev, listed`inCache
      modifies table`elems, table`chains, table`handles, table.list, table.handles`nextHash
      ensures Inv() && (usage + e.totalCharge <= capacity || order == []) && listed <= old(listed)
      ensures evicted <= old(order) && order == old(order)[|evicted|..]
      ensures split == if |evicted| < old(split) then old(split) - |evicted| else 0
      ensures table.handles == old(table.handles) - Members(evicted)
      ensures live == old(live) - Members(evicted) && Members(evicted) <= old(live)
              && freed == old(freed) + Members(evicted)
      ensures usage + Sum(evicted) == old(usage)
      ensures DistinctIds(table.handles)
      ensures evicted != [] ==> usage + evicted[|evicted| - 1].totalCharge + e.totalCharge > capacity
      ensures RoomFor(table.handles, table.list.Length, e.Id()) || (usage + e.totalCharge > capacity && away)
    {
      hide LRUHandleTable.Valid, ListOk, HandleOk, NoDup, Members, Sum, Total, DistinctIds, Evicted, RoomFor, Circular;
      TableSize(table);
      ListedInTable();
      evicted := EvictFromLRU(e.totalCharge);
      FreeEvicted(evicted, old(live), old(table.handles));
      TableSize(table);
      NothingIn(evicted);
      RoomOrAway(old(table.handles), table.list.Length, e.Id(), old(order), evicted, order,
                 old(usage) + e.totalCharge > capacity, usage + e.totalCharge > capacity, away);
    }

    method FreeEvicted(deleted: seq<LRUHandle>, ghost before: set<LRUHandle>, ghost tableBefore: set<LRUHandle>)
      requires Inv() && Evicted(deleted, before, tableBefore) && freed !! before
      modifies this`freed
      ensures Inv() && freed == old(freed) + Members(deleted)
      ensures live == before - Members(deleted) && table.handles == tableBefore - Members(deleted)
              && Members(deleted) <= before
    {
      hide LRUHandleTable.Valid, ListOk, HandleOk, NoDup, Members, Total;
      EvictedAreNotFreed(deleted, before, tableBefore, freed);
      FreeAll(deleted);
    }

    /** Admit, and the deleter of the entry that was replaced if nobody references it. */
    method AdmitAndFree(e: LRUHandle, keepHandle: bool)
      returns (replaced: LRUHandle?, ghost base: seq<LRUHandle>, ghost baseSplit: nat)
      requires Inv() && e !in live && e !in freed && e != lru && RoomFor(table.handles, table.list.Length, e.Id())
      requires e.inCache && e.refs == 0 && e.next == null && e.prev == null && !e.hasHit && DistinctIds(table.handles)
      modifies this`lowPri, this`highPriPoolUsage, this`order, this`listed, this`split, this`lruUsage
      modifies this`usage, this`live
      modifies this`external, this`freed, lru`next, lru`prev, listed`next, listed`prev, listed`inHighPriPool
      modifies e`nextHash, e`next, e`prev, e`refs, e`inHighPriPool
      modifies table, table.list, table.handles`nextHash, table.handles`inCache
      ensures Inv() && (table.list == old(table.list) || fresh(table.list))
      ensures replaced != null ==> replaced in old(table.handles)
      ensures replaced == Find(old(table.handles), e.Id())
              && table.handles == old(table.handles) - Nodes(replaced) + {e}
      ensures var gone := if replaced != null && replaced.refs == 0 then {replaced} else {};
              && live == old(live) + {e} - gone && freed == old(freed) + gone
              && usage == old(usage) + e.totalCharge
                          - (if replaced != null && replaced.refs == 0 then replaced.totalCharge else 0)
      ensures external == old(external) + (if keepHandle then {e} else {}) && e.refs == (if keepHandle then 1 else 0)
      ensures if replaced != null && replaced.refs == 0
              then base == Without(old(order), replaced) && baseSplit == SplitWithout(old(order), old(split), replaced)
              else base == old(order) && baseSplit == old(split)
      ensures Placed(e, keepHandle, base, baseSplit)
    {
      hide LRUHandleTable.Valid, ListOk, HandleOk, Total, Without, SplitWithout, Splice, Overflow, DistinctIds,
           ContentsOf;
      var retired;
      replaced, retired, base, baseSplit := Admit(e, keepHandle);
      if retired {
        FreeDropped(replaced);
      }
    }

    static lemma TableSize(t: LRUHandleTable)
      requires t.Valid()
      ensures t.elems == |t.handles| <= t.list.Length && DistinctIds(t.handles)
    {
    }

    lemma ListedInTable()
      requires EntriesOk()
      ensures order != [] ==> order[0] in table.handles
    {
      if order != [] {
        assert order[0] in listed && HandleOk(order[0]);
      }
    }

    static lemma NothingIn(evicted: seq<LRUHandle>)
      ensures evicted == [] ==> Sum(evicted) == 0
    {
    }

    /** An eviction makes room in the table; if there was nothing to evict, the entry is turned away, or there was room
        before. `tight` tells whether the charge did not fit before, `full` whether it does not fit now. */
    static lemma RoomOrAway(
      before: set<LRUHandle>, length: nat, id: (nat, Key), all: seq<LRUHandle>, evicted: seq<LRUHandle>,
      rest: seq<LRUHandle>, tight: bool, full: bool, away: bool)
      requires |before| <= length && evicted + rest == all && (all != [] ==> all[0] in before)
      requires RoomFor(before, length, id) || (tight && (all != [] || away))
      requires (evicted == [] ==> tight == full) && (full ==> rest == [])
      ensures RoomFor(before - Members(evicted), length, id) || (full && away)
    {
      if evicted == [] {
        assert before - Members(evicted) == before;
      } else {
        assert evicted[0] == all[0];
        SizeOfSubset(before - Members(evicted), before - {evicted[0]});
      }
    }
  }

  /** A cache of capacity 100 whose high-priority pool holds one entry of charge 10. */
  method OneEntryInPool() returns (c: LRUCacheShard)
    ensures fresh(c) && fresh(c.live) && fresh(c.table) && fresh(c.table.list) && fresh(c.lru)
    ensures c.Valid() && |c.order| == 1 && c.split == 0 && c.usage == 10 && c.highPriPoolRatio == 0.5
    ensures SumFrom(c.order, 0) == 10 && c.live == c.table.handles
  {
    hide LRUCacheShard.Valid, Overflow, LRUHandleTable.Valid;
    c := new LRUCacheShard(100, false, 0.5);
    var s, handle, e, evicted, replaced, base, baseSplit := c.Insert(1, 1, 10, false, true);
    assert evicted == [] && Sum(evicted) == 0 && Members(evicted) == {};
    assert c.order == [] + [e] == [e];
    OneHighPri(e);
  }

  /** Shrinking the cache shrinks the pool's capacity but not the pool: the bound on the high-priority pool is not
      kept by SetCapacity. */
  method PoolOverCapacity() returns (c: LRUCacheShard)
    ensures c.Valid() && c.highPriPoolUsage as real > c.highPriPoolCapacity
  {
    hide LRUCacheShard.Valid, LRUHandleTable.Valid, SumFrom;
    c := OneEntryInPool();
    c.Facts();
    ghost var order := c.order;
    var deleted := c.SetCapacity(10);
    assert Evictions(order, 10, 10) == 0;
  }

  lemma OneHighPri(e: LRUHandle)
    requires e.totalCharge == 10
    ensures SumFrom([e], 0) == 10 && Sum([e]) == 10 && Overflow([e], 0, 50.0) == 0
  {
    assert [e][1..] == [] && [e][0..] == [e];
    assert Sum([e]) == e.totalCharge + Sum([e][1..]);
  }
}
