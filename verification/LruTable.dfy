/** The hash table of the LRU cache: an array of buckets, each a list linked through the handles themselves. */
module LruTables {
  import opened LruHandles
  import opened PowersOfTwo

  /** The bucket count is a 32-bit number that is doubled up to one and a half times the number of entries. */
  const MAX_TRIPLE_ELEMS := 0x1_0000_0000

  /** The bucket count after `k` doublings of 16 in 32 bits. */
  function Doubled(k: nat): nat {
    if k == 0 then 16 else Doubled(k - 1) * 2 % 0x1_0000_0000
  }

  lemma LargestPower()
    ensures PowerOfTwo(0x8000_0000)
  {
    assert PowerOfTwo(2) && PowerOfTwo(8);
    TimesSixteen(0x8);
    TimesSixteen(0x80);
    TimesSixteen(0x800);
    TimesSixteen(0x8000);
    TimesSixteen(0x8_0000);
    TimesSixteen(0x80_0000);
    TimesSixteen(0x800_0000);
  }

  lemma {:induction false} DoubledIsPower(k: nat)
    ensures Doubled(k) == 0 || (PowerOfTwo(Doubled(k)) && Doubled(k) <= 0x8000_0000)
  {
    LargestPower();
    if k == 0 {
      assert PowerOfTwo(2) && PowerOfTwo(8);
    } else {
      DoubledIsPower(k - 1);
      DoubledOnce(Doubled(k - 1));
    }
  }

  lemma DoubledOnce(n: nat)
    requires n == 0 || (PowerOfTwo(n) && n <= 0x8000_0000)
    ensures var m := n * 2 % 0x1_0000_0000; m == 0 || (PowerOfTwo(m) && m <= 0x8000_0000)
  {
    hide PowerOfTwo;
    if 0 < n < 0x8000_0000 {
      LargestPower();
      NextPower(n, 0x8000_0000);
      Twice(n);
    }
  }

  lemma LargestIsReached() returns (k: nat)
    ensures Doubled(k) == 0x8000_0000
  {
    k := 0;
    LargestPower();
    assert PowerOfTwo(2) && PowerOfTwo(8);
    while Doubled(k) != 0x8000_0000
      invariant PowerOfTwo(Doubled(k)) && Doubled(k) <= 0x8000_0000
      decreases 0x8000_0000 - Doubled(k)
    {
      NextPower(Doubled(k), 0x8000_0000);
      k := k + 1;
    }
  }

  /** The loop of Resize, which doubles until there are one and a half buckets for each entry, comes to an end exactly
      when three times the entries are at most 2^32: otherwise the count wraps around to 0 and stays there. */
  lemma GrowthEnds(elems: nat)
    ensures (exists k :: 2 * Doubled(k) >= 3 * elems) <==> 3 * elems <= MAX_TRIPLE_ELEMS
  {
    var largest := LargestIsReached();
    assert 2 * Doubled(largest) == MAX_TRIPLE_ELEMS;
    forall k
      ensures 2 * Doubled(k) <= MAX_TRIPLE_ELEMS
    {
      DoubledIsPower(k);
    }
  }

  /** An entry in a table with `length` buckets needs no more of them, or there can be enough. */
  ghost predicate RoomFor(hs: set<LRUHandle>, length: nat, id: (nat, Key)) {
    (exists h :: h in hs && h.Id() == id) || |hs| < length || 3 * (|hs| + 1) <= MAX_TRIPLE_ELEMS
  }

  /** A position of `h` in `s`. */
  ghost function Position(s: seq<LRUHandle>, h: LRUHandle): (i: nat)
    requires h in s
    ensures i < |s| && s[i] == h
  {
    var i: nat :| i < |s| && s[i] == h; i
  }

  /** Every handle has one position only. */
  ghost predicate NoDup(s: seq<LRUHandle>) {
    forall i {:trigger s[i]} | 0 <= i < |s| :: Position(s, s[i]) == i
  }

  function NodeAt(c: seq<LRUHandle>, i: int): LRUHandle? {
    if 0 <= i < |c| then c[i] else null
  }

  /** The list that starts at `first` consists of the handles `c`. */
  ghost predicate Linked(first: LRUHandle?, c: seq<LRUHandle>)
    reads c`nextHash
  {
    && first == NodeAt(c, 0)
    && forall i {:trigger c[i].nextHash} | 0 <= i < |c| :: c[i].nextHash == NodeAt(c, i + 1)
  }

  /** The list of bucket `b` holds exactly the handles of `hs` whose masked hash is `b`, each once. */
  ghost predicate BucketHolds(c: seq<LRUHandle>, b: nat, length: nat, hs: set<LRUHandle>)
    requires length > 0
  {
    && NoDup(c)
    && (forall i | 0 <= i < |c| :: c[i] in hs && c[i].hash % length == b)
    && (forall h | h in hs && h.hash % length == b :: h in c)
  }

  ghost predicate DistinctIds(hs: set<LRUHandle>) {
    forall g, h | g in hs && h in hs && g.hash == h.hash && g.key == h.key :: g == h
  }

  /** The map from (hash, key) to handle that a set of handles stands for. */
  ghost function ContentsOf(hs: set<LRUHandle>): map<(nat, Key), LRUHandle>
    requires DistinctIds(hs)
  {
    map h | h in hs :: h.Id() := h
  }

  lemma AppendHolds(c: seq<LRUHandle>, b: nat, length: nat, hs: set<LRUHandle>, h: LRUHandle)
    requires length > 0 && BucketHolds(c, b, length, hs) && h !in hs && h.hash % length == b
    ensures BucketHolds(c + [h], b, length, hs + {h})
  {
  }

  lemma ReplaceHolds(c: seq<LRUHandle>, b: nat, length: nat, hs: set<LRUHandle>, at: nat, h: LRUHandle)
    requires length > 0 && BucketHolds(c, b, length, hs) && h !in hs && h.hash % length == b && at < |c|
    ensures BucketHolds(c[at := h], b, length, hs - {c[at]} + {h})
  {
    var c' := c[at := h];
    forall g | g in hs - {c[at]} + {h} && g.hash % length == b
      ensures g in c'
    {
      if g == h {
        assert c'[at] == h;
      } else {
        var i :| 0 <= i < |c| && c[i] == g;
        assert c'[i] == g;
      }
    }
  }

  lemma RemoveHolds(c: seq<LRUHandle>, b: nat, length: nat, hs: set<LRUHandle>, at: nat)
    requires length > 0 && BucketHolds(c, b, length, hs) && at < |c|
    ensures BucketHolds(c[..at] + c[at + 1..], b, length, hs - {c[at]})
  {
    var c' := c[..at] + c[at + 1..];
    forall g | g in hs - {c[at]} && g.hash % length == b
      ensures g in c'
    {
      var i :| 0 <= i < |c| && c[i] == g;
      assert c'[if i < at then i else i - 1] == g;
    }
  }

  /** A bucket that a change of the handles does not concern. */
  lemma OtherBucketHolds(c: seq<LRUHandle>, b: nat, length: nat, hs: set<LRUHandle>, hs': set<LRUHandle>)
    requires length > 0 && BucketHolds(c, b, length, hs)
    requires forall h | h in (hs - hs') + (hs' - hs) :: h.hash % length != b
    ensures BucketHolds(c, b, length, hs')
  {
    forall i | 0 <= i < |c|
      ensures c[i] in hs'
    {
      var h := c[i];
      assert h in hs && h.hash % length == b;
      assert h in hs' || h in hs - hs';
    }
    forall h | h in hs' && h.hash % length == b
      ensures h in c
    {
      assert h !in hs ==> h in hs' - hs;
    }
  }

  /** Each handle is once in the bucket of its masked hash, and in no other. */
  ghost predicate Shape(chains: seq<seq<LRUHandle>>, hs: set<LRUHandle>) {
    |chains| > 0 && forall b | 0 <= b < |chains| :: BucketHolds(chains[b], b, |chains|, hs)
  }

  ghost predicate AllLinked(list: array<LRUHandle?>, chains: seq<seq<LRUHandle>>, hs: set<LRUHandle>)
    requires Shape(chains, hs)
    reads list, hs`nextHash
  {
    |chains| == list.Length && forall b {:trigger chains[b]} | 0 <= b < list.Length :: Linked(list[b], chains[b])
  }

  lemma ShapeAfter(chains: seq<seq<LRUHandle>>, hs: set<LRUHandle>, b: nat, c': seq<LRUHandle>, hs': set<LRUHandle>)
    requires Shape(chains, hs) && b < |chains|
    requires BucketHolds(c', b, |chains|, hs')
    requires forall h | h in (hs - hs') + (hs' - hs) :: h.hash % |chains| == b
    ensures Shape(chains[b := c'], hs')
  {
    var after := chains[b := c'];
    forall k | 0 <= k < |after|
      ensures BucketHolds(after[k], k, |after|, hs')
    {
      if k != b {
        OtherBucketHolds(chains[k], k, |chains|, hs, hs');
      }
    }
  }

  /** A list with `h` in place of the node at `at`, or at its end. */
  function PutAt(c: seq<LRUHandle>, at: nat, h: LRUHandle): seq<LRUHandle>
    requires at <= |c|
  {
    if at == |c| then c + [h] else c[at := h]
  }

  lemma ShapeAfterPut(chains: seq<seq<LRUHandle>>, hs: set<LRUHandle>, at: nat, h: LRUHandle)
    requires Shape(chains, hs) && h !in hs && at <= |chains[h.hash % |chains|]|
    ensures var b := h.hash % |chains|;
            Shape(chains[b := PutAt(chains[b], at, h)], hs - Nodes(NodeAt(chains[b], at)) + {h})
  {
    var b := h.hash % |chains|;
    var c := chains[b];
    var hs' := hs - Nodes(NodeAt(c, at)) + {h};
    assert BucketHolds(c, b, |chains|, hs);
    if at == |c| {
      AppendHolds(c, b, |chains|, hs, h);
      assert hs' == hs + {h};
    } else {
      ReplaceHolds(c, b, |chains|, hs, at, h);
    }
    ShapeAfter(chains, hs, b, PutAt(c, at, h), hs');
  }

  lemma ShapeAfterCut(chains: seq<seq<LRUHandle>>, hs: set<LRUHandle>, b: nat, at: nat)
    requires Shape(chains, hs) && b < |chains| && at < |chains[b]|
    ensures Shape(chains[b := chains[b][..at] + chains[b][at + 1..]], hs - {chains[b][at]})
  {
    assert BucketHolds(chains[b], b, |chains|, hs);
    RemoveHolds(chains[b], b, |chains|, hs, at);
    ShapeAfter(chains, hs, b, chains[b][..at] + chains[b][at + 1..], hs - {chains[b][at]});
  }

  lemma ShapeAfterPush(chains: seq<seq<LRUHandle>>, hs: set<LRUHandle>, h: LRUHandle)
    requires Shape(chains, hs) && h !in hs
    ensures var b := h.hash % |chains|; Shape(chains[b := [h] + chains[b]], hs + {h})
  {
    var b := h.hash % |chains|;
    var c := chains[b];
    assert BucketHolds(c, b, |chains|, hs);
    forall g | g in hs + {h} && g.hash % |chains| == b
      ensures g in [h] + c
    {
      assert g in hs ==> g in c;
    }
    ShapeAfter(chains, hs, b, [h] + c, hs + {h});
  }

  /** The handles of bucket `b` are in no other bucket. */
  lemma OtherBucket(chains: seq<seq<LRUHandle>>, hs: set<LRUHandle>, b: nat, k: nat, changed: set<LRUHandle>)
    requires Shape(chains, hs) && b < |chains| && k < |chains| && k != b
    requires forall h | h in changed :: h in hs ==> h.hash % |chains| == b
    ensures forall i | 0 <= i < |chains[k]| :: chains[k][i] !in changed
  {
    assert BucketHolds(chains[k], k, |chains|, hs);
  }

  function Nodes(h: LRUHandle?): set<LRUHandle> {
    if h == null then {} else {h}
  }

  /** The entry stored for an id, if any. */
  ghost function Find(hs: set<LRUHandle>, id: (nat, Key)): LRUHandle?
    requires DistinctIds(hs)
  {
    if id in ContentsOf(hs) then ContentsOf(hs)[id] else null
  }

  lemma FindMatches(hs: set<LRUHandle>, k: Key, hash: nat, e: LRUHandle?)
    requires DistinctIds(hs)
    requires if e == null then forall h | h in hs :: !h.Matches(k, hash) else e in hs && e.Matches(k, hash)
    ensures e == Find(hs, (hash, k))
  {
    if e != null {
      assert e.Id() == (hash, k);
    }
  }

  lemma FindItself(hs: set<LRUHandle>, e: LRUHandle)
    requires DistinctIds(hs) && e in hs
    ensures Find(hs, (e.hash, e.key)) == e
  {
    assert e.Id() == (e.hash, e.key);
  }

  lemma ContentsAfterInsert(hs: set<LRUHandle>, h: LRUHandle)
    requires DistinctIds(hs) && h !in hs
    ensures var replaced := Find(hs, h.Id());
            var hs' := hs - Nodes(replaced) + {h};
            && DistinctIds(hs') && ContentsOf(hs') == ContentsOf(hs)[h.Id() := h]
            && |hs'| == |hs| + (if replaced == null then 1 else 0)
            && (replaced != null ==> replaced in hs && replaced.Id() == h.Id())
  {
    var replaced := Find(hs, h.Id());
    var rest := hs - Nodes(replaced);
    forall g | g in rest
      ensures g.Id() != h.Id()
    {
      assert g.Id() in ContentsOf(hs);
    }
    assert ContentsOf(rest + {h}).Keys == ContentsOf(hs).Keys + {h.Id()};
  }

  lemma ContentsAfterRemove(hs: set<LRUHandle>, id: (nat, Key))
    requires DistinctIds(hs)
    ensures var hs' := hs - Nodes(Find(hs, id));
            DistinctIds(hs') && ContentsOf(hs') == ContentsOf(hs) - {id} && |hs'| == |hs| - |Nodes(Find(hs, id))|
  {
    forall g | g in hs
      ensures g.Id() in ContentsOf(hs)
    {
    }
  }

  class LRUHandleTable {
    var list: array<LRUHandle?>
    var elems: nat
    ghost var chains: seq<seq<LRUHandle>>
    ghost var handles: set<LRUHandle>

    ghost predicate Valid()
      reads this, list, handles`nextHash
    {
      && PowerOfTwo(list.Length) && list.Length >= 16 && |chains| == list.Length
      && elems == |handles| <= list.Length
      && DistinctIds(handles) && Shape(chains, handles) && AllLinked(list, chains, handles)
    }

    constructor ()
      ensures Valid() && fresh(list) && handles == {} && elems == 0
    {
      list := new LRUHandle?[16](_ => null);
      elems, chains, handles := 0, seq(16, _ => []), {};
      new;
      assert PowerOfTwo(1) && PowerOfTwo(2) && PowerOfTwo(4) && PowerOfTwo(8);
    }

    /** What the table stands for. */
    ghost function Contents(): map<(nat, Key), LRUHandle>
      reads this, list, handles`nextHash
      requires Valid()
    {
      ContentsOf(handles)
    }

    /** Where a pointer to the matching entry is, or to the end of its bucket: in `prev`, or in the bucket if that
        is null. */
    method FindPointer(k: Key, hash: nat) returns (prev: LRUHandle?, cur: LRUHandle?, ghost at: nat)
      requires Valid()
      ensures var c := chains[hash % list.Length];
              && at <= |c| && cur == NodeAt(c, at) && prev == NodeAt(c, at - 1)
              && (cur != null ==> cur.Matches(k, hash))
      ensures cur == null ==> forall h | h in handles :: !h.Matches(k, hash)
    {
      var b := hash % list.Length;
      ghost var c := chains[b];
      prev, cur, at := null, list[b], 0;
      while cur != null && !cur.Matches(k, hash)
        invariant at <= |c| && cur == NodeAt(c, at) && prev == NodeAt(c, at - 1)
        invariant forall i | 0 <= i < at :: !c[i].Matches(k, hash)
        decreases |c| - at
      {
        prev, cur, at := cur, cur.nextHash, at + 1;
      }
      if cur == null {
        forall h | h in handles
          ensures !h.Matches(k, hash)
        {
          if h.hash == hash {
            assert h in c;
          }
        }
      }
    }

    method Lookup(k: Key, hash: nat) returns (e: LRUHandle?)
      requires Valid()
      ensures e == if (hash, k) in Contents() then Contents()[(hash, k)] else null
      ensures e == Find(handles, (hash, k)) && (e != null ==> e in handles)
    {
      ghost var at;
      var prev;
      prev, e, at := FindPointer(k, hash);
      FindMatches(handles, k, hash, e);
    }

    /** Assigns through a pointer that FindPointer returned: to the link of `prev`, or to the bucket itself. The
        bucket's list was `c` and becomes `c'`. */
    method SetPointer(b: nat, prev: LRUHandle?, target: LRUHandle?,
                      ghost at: nat, ghost c: seq<LRUHandle>, ghost c': seq<LRUHandle>)
      requires b < list.Length && Linked(list[b], c) && NoDup(c)
      requires at <= |c| && prev == NodeAt(c, at - 1) && at <= |c'| && c'[..at] == c[..at] && target == NodeAt(c', at)
      requires forall i {:trigger c'[i].nextHash} | at <= i < |c'| ::
                 c'[i] != prev && c'[i].nextHash == NodeAt(c', i + 1)
      modifies list, Nodes(prev)`nextHash
      ensures Linked(list[b], c')
      ensures forall i | 0 <= i < list.Length && i != b :: list[i] == old(list[i])
    {
      if prev == null {
        list[b] := target;
      } else {
        prev.nextHash := target;
      }
      forall i | 0 <= i < |c'|
        ensures c'[i].nextHash == NodeAt(c', i + 1)
      {
        assert i >= at ==> old(c'[i].nextHash) == NodeAt(c', i + 1);
        if i < at {
          assert c'[i] == c[i] == c'[..at][i] && old(c[i].nextHash) == NodeAt(c, i + 1);
          if i + 1 < at {
            assert c'[i + 1] == c[i + 1] == c'[..at][i + 1];
          }
        }
      }
    }

    /** Puts `h` in, in place of the entry with the same key if there is one. */
    method Insert(h: LRUHandle) returns (replaced: LRUHandle?)
      requires Valid() && h !in handles && RoomFor(handles, list.Length, h.Id())
      modifies this, list, handles`nextHash, h`nextHash
      ensures Valid() && (list == old(list) || fresh(list))
      ensures replaced == Find(old(handles), h.Id()) && (replaced != null ==> replaced in old(handles))
      ensures handles == old(handles) - Nodes(replaced) + {h}
      ensures Contents() == old(Contents())[h.Id() := h]
    {
      hide Shape, AllLinked, DistinctIds, PowerOfTwo;
      replaced := Place(h);
      if replaced == null {
        elems := elems + 1;
        if elems > list.Length {
          Resize();
        }
      }
    }

    /** Insert without the count. */
    method Place(h: LRUHandle) returns (replaced: LRUHandle?)
      requires Valid() && h !in handles
      modifies this`chains, this`handles, list, handles`nextHash, h`nextHash
      ensures Shape(chains, handles) && AllLinked(list, chains, handles) && DistinctIds(handles)
      ensures replaced == Find(old(handles), h.Id()) && (replaced != null ==> replaced in old(handles))
      ensures handles == old(handles) - Nodes(replaced) + {h}
      ensures ContentsOf(handles) == old(Contents())[h.Id() := h]
      ensures |handles| == old(elems) + (if replaced == null then 1 else 0)
    {
      ghost var at;
      var prev;
      prev, replaced, at := FindPointer(h.key, h.hash);
      FindMatches(handles, h.key, h.hash, replaced);
      PutInBucket(prev, replaced, h, at);
      ContentsAfterInsert(old(handles), h);
    }

    /** Lets `h` take the place of `cur`, or the end of the bucket. */
    method Put(b: nat, prev: LRUHandle?, cur: LRUHandle?, h: LRUHandle, ghost at: nat, ghost c: seq<LRUHandle>)
      requires b < list.Length && Linked(list[b], c) && NoDup(c) && h !in c
      requires at <= |c| && prev == NodeAt(c, at - 1) && cur == NodeAt(c, at)
      modifies list, (Nodes(prev) + {h})`nextHash
      ensures Linked(list[b], PutAt(c, at, h))
      ensures forall i | 0 <= i < list.Length && i != b :: list[i] == old(list[i])
    {
      h.nextHash := if cur == null then null else cur.nextHash;
      ghost var c' := PutAt(c, at, h);
      forall i | at <= i < |c'|
        ensures c'[i] != prev && c'[i].nextHash == NodeAt(c', i + 1)
      {
        assert i > at ==> old(c[i].nextHash) == NodeAt(c, i + 1);
        assert cur != null ==> old(c[at].nextHash) == NodeAt(c, at + 1);
      }
      SetPointer(b, prev, h, at, c, c');
    }

    method PutInBucket(prev: LRUHandle?, cur: LRUHandle?, h: LRUHandle, ghost at: nat)
      requires Shape(chains, handles) && AllLinked(list, chains, handles) && h !in handles
      requires var c := chains[h.hash % list.Length]; at <= |c| && prev == NodeAt(c, at - 1) && cur == NodeAt(c, at)
      modifies this`chains, this`handles, list, (Nodes(prev) + {h})`nextHash
      ensures Shape(chains, handles) && AllLinked(list, chains, handles)
      ensures handles == old(handles) - Nodes(cur) + {h}
    {
      var b := h.hash % list.Length;
      ghost var c := chains[b];
      assert BucketHolds(c, b, list.Length, handles);
      ShapeAfterPut(chains, handles, at, h);
      chains, handles := chains[b := PutAt(c, at, h)], handles - Nodes(cur) + {h};
      Put(b, prev, cur, h, at, c);
      forall k | 0 <= k < list.Length && k != b
        ensures Linked(list[k], chains[k])
      {
        OtherBucket(old(chains), old(handles), b, k, Nodes(prev) + {h});
        assert old(Linked(list[k], chains[k]));
      }
    }

    /** Takes the entry with this key out. */
    method Remove(k: Key, hash: nat) returns (e: LRUHandle?)
      requires Valid()
      modifies this`elems, this`chains, this`handles, list, handles`nextHash
      ensures Valid()
      ensures e == Find(old(handles), (hash, k)) && (e != null ==> e in old(handles))
      ensures handles == old(handles) - Nodes(e)
      ensures Contents() == old(Contents()) - {(hash, k)}
    {
      ghost var at;
      var prev;
      prev, e, at := FindPointer(k, hash);
      FindMatches(handles, k, hash, e);
      ContentsAfterRemove(handles, (hash, k));
      if e != null {
        CutFromBucket(prev, e, at);
        elems := elems - 1;
      }
    }

    /** Links the predecessor of `e` to its successor. */
    method Cut(b: nat, prev: LRUHandle?, e: LRUHandle, ghost at: nat, ghost c: seq<LRUHandle>)
      requires b < list.Length && Linked(list[b], c) && NoDup(c)
      requires at < |c| && prev == NodeAt(c, at - 1) && e == c[at]
      modifies list, Nodes(prev)`nextHash
      ensures Linked(list[b], c[..at] + c[at + 1..])
      ensures forall i | 0 <= i < list.Length && i != b :: list[i] == old(list[i])
    {
      ghost var c' := c[..at] + c[at + 1..];
      forall i | at <= i < |c'|
        ensures c'[i] != prev && c'[i].nextHash == NodeAt(c', i + 1)
      {
        assert c'[i] == c[i + 1] && c[i + 1].nextHash == NodeAt(c, i + 2);
      }
      assert e.nextHash == NodeAt(c, at + 1);
      SetPointer(b, prev, e.nextHash, at, c, c');
    }

    method CutFromBucket(prev: LRUHandle?, e: LRUHandle, ghost at: nat)
      requires Shape(chains, handles) && AllLinked(list, chains, handles)
      requires var c := chains[e.hash % list.Length]; at < |c| && prev == NodeAt(c, at - 1) && e == c[at]
      modifies this`chains, this`handles, list, Nodes(prev)`nextHash
      ensures Shape(chains, handles) && AllLinked(list, chains, handles)
      ensures handles == old(handles) - {e}
    {
      var b := e.hash % list.Length;
      ghost var c := chains[b];
      assert BucketHolds(c, b, list.Length, handles) && Linked(list[b], c);
      ShapeAfterCut(chains, handles, b, at);
      chains, handles := chains[b := c[..at] + c[at + 1..]], handles - {e};
      Cut(b, prev, e, at, c);
      forall k | 0 <= k < list.Length && k != b
        ensures Linked(list[k], chains[k])
      {
        OtherBucket(old(chains), old(handles), b, k, Nodes(prev));
        assert old(Linked(list[k], chains[k]));
      }
    }

    /** Puts `h` at the front of its bucket of another array. */
    static method PushFront(a: array<LRUHandle?>, h: LRUHandle, ghost cs: seq<seq<LRUHandle>>, ghost hs: set<LRUHandle>)
      returns (ghost cs': seq<seq<LRUHandle>>)
      requires Shape(cs, hs) && AllLinked(a, cs, hs) && h !in hs
      modifies a, h`nextHash
      ensures Shape(cs', hs + {h}) && AllLinked(a, cs', hs + {h})
    {
      var b := h.hash % a.Length;
      ghost var c := cs[b];
      assert BucketHolds(c, b, a.Length, hs) && Linked(a[b], c);
      ShapeAfterPush(cs, hs, h);
      cs' := cs[b := [h] + c];
      h.nextHash := a[b];
      a[b] := h;
      forall k | 0 <= k < a.Length
        ensures Linked(a[k], cs'[k])
      {
        assert BucketHolds(cs[k], k, a.Length, hs);
        assert old(Linked(a[k], cs[k]));
      }
    }

    /** The inner loop of Resize: moves the handles of bucket `i` to the new array. */
    method MoveBucket(i: nat, a: array<LRUHandle?>, ghost cs: seq<seq<LRUHandle>>, ghost moved: set<LRUHandle>)
      returns (count: nat, ghost cs': seq<seq<LRUHandle>>, ghost moved': set<LRUHandle>)
      requires i < list.Length == |chains| && a != list && Shape(chains, handles) && Linked(list[i], chains[i])
      requires Shape(cs, moved) && AllLinked(a, cs, moved) && moved <= handles
      requires forall g | g in handles :: g in moved <==> g.hash % list.Length < i
      modifies a, handles`nextHash
      ensures Shape(cs', moved') && AllLinked(a, cs', moved') && moved' <= handles && |moved'| == |moved| + count
      ensures forall g | g in handles :: g in moved' <==> g.hash % list.Length < i + 1
      ensures forall g {:trigger g.nextHash} | g in handles && g !in moved' :: g.nextHash == old(g.nextHash)
    {
      ghost var c := chains[i];
      ghost var j := 0;
      var h := list[i];
      count, cs', moved' := 0, cs, moved;
      assert BucketHolds(c, i, list.Length, handles);
      while h != null
        invariant 0 <= j <= |c| && h == NodeAt(c, j)
        invariant Shape(cs', moved') && AllLinked(a, cs', moved') && |moved'| == |moved| + count
        invariant moved' <= handles
        invariant forall g | g in handles && g.hash % list.Length != i :: g in moved' <==> g.hash % list.Length < i
        invariant forall k | 0 <= k < |c| :: c[k] in moved' <==> k < j
        invariant forall g {:trigger g.nextHash} | g in handles && g !in moved' :: g.nextHash == old(g.nextHash)
        decreases |c| - j
      {
        var next := h.nextHash;
        assert old(h.nextHash) == NodeAt(c, j + 1);
        cs' := PushFront(a, h, cs', moved');
        moved', count, h, j := moved' + {h}, count + 1, next, j + 1;
      }
    }

    /** At least half as many buckets again as there are entries; the map stays the same. */
    method Resize()
      requires Shape(chains, handles) && AllLinked(list, chains, handles)
      requires DistinctIds(handles) && elems == |handles| && 3 * elems <= MAX_TRIPLE_ELEMS
      modifies this`list, this`chains, handles`nextHash
      ensures Valid() && fresh(list) && 3 * elems <= 2 * list.Length < 2 * MAX_TRIPLE_ELEMS
    {
      var newLength := NewLength();
      var newList := new LRUHandle?[newLength](_ => null);
      ghost var newChains: seq<seq<LRUHandle>> := seq(newLength, _ => []);
      ghost var moved: set<LRUHandle> := {};
      var count, i := 0, 0;
      while i < list.Length
        invariant 0 <= i <= list.Length && list == old(list) && chains == old(chains) && fresh(newList)
        invariant newList.Length == newLength && Shape(newChains, moved) && AllLinked(newList, newChains, moved)
        invariant count == |moved| && moved <= handles
        invariant forall g | g in handles :: g in moved <==> g.hash % list.Length < i
        invariant forall g {:trigger g.nextHash} | g in handles && g !in moved :: g.nextHash == old(g.nextHash)
      {
        assert old(Linked(list[i], chains[i])) && BucketHolds(chains[i], i, list.Length, handles);
        var n;
        n, newChains, moved := MoveBucket(i, newList, newChains, moved);
        count, i := count + n, i + 1;
      }
      assert moved == handles;
      assert elems == count;
      list, chains := newList, newChains;
    }

    method NewLength() returns (newLength: nat)
      requires 3 * elems <= MAX_TRIPLE_ELEMS
      ensures PowerOfTwo(newLength) && 16 <= newLength < MAX_TRIPLE_ELEMS && 3 * elems <= 2 * newLength
      ensures newLength > 16 ==> newLength < 3 * elems
    {
      newLength := 16;
      assert PowerOfTwo(1) && PowerOfTwo(2) && PowerOfTwo(4) && PowerOfTwo(8);
      while 2 * newLength < 3 * elems
        invariant PowerOfTwo(newLength) && 16 <= newLength < MAX_TRIPLE_ELEMS
        invariant newLength > 16 ==> newLength < 3 * elems
        decreases 3 * elems - newLength
      {
        newLength := newLength * 2;
      }
    }
  }
}
