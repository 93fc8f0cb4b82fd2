/** The order of encoded internal keys is the one that the specification of the iterator uses. Only finitely many user
    keys occur in one iterator: those of its entries and tombstones, its bounds and the targets it is sent to. */
module KeyOrder {
  import D = DbFormat
  import I = InternalIterators
  import S = SnapshotView
  import opened SequenceNumbers
  import opened Counting

  ghost function Below(cmp: D.Comparator, keys: set<D.Bytes>, x: D.Bytes): set<D.Bytes> {
    set k | k in keys && cmp(k, x) < 0
  }

  /** The number of a user key in the comparator's order. */
  ghost function Rank(cmp: D.Comparator, keys: set<D.Bytes>, x: D.Bytes): nat {
    |Below(cmp, keys, x)|
  }

  lemma BelowGrows(cmp: D.Comparator, keys: set<D.Bytes>, x: D.Bytes, y: D.Bytes)
    requires D.IsComparator(cmp) && cmp(x, y) <= 0
    ensures Below(cmp, keys, x) <= Below(cmp, keys, y)
  {
    forall k | k in keys && cmp(k, x) < 0
      ensures cmp(k, y) < 0
    {
      assert cmp(k, x) <= 0 && cmp(x, y) <= 0 ==> cmp(k, y) <= 0;
      assert cmp(x, y) <= 0 && cmp(y, k) <= 0 ==> cmp(x, k) <= 0;
      assert D.Sign(cmp(k, y)) == -D.Sign(cmp(y, k)) && D.Sign(cmp(k, x)) == -D.Sign(cmp(x, k));
    }
  }

  lemma RankGrows(cmp: D.Comparator, keys: set<D.Bytes>, x: D.Bytes, y: D.Bytes)
    requires D.IsComparator(cmp) && x in keys && cmp(x, y) <= 0
    ensures Rank(cmp, keys, x) <= Rank(cmp, keys, y)
    ensures cmp(x, y) < 0 ==> Rank(cmp, keys, x) < Rank(cmp, keys, y)
  {
    BelowGrows(cmp, keys, x, y);
    SizeOfSubset(Below(cmp, keys, x), Below(cmp, keys, y));
    if cmp(x, y) < 0 {
      assert cmp(x, x) == 0;
      assert x in Below(cmp, keys, y) && x !in Below(cmp, keys, x);
      SizeOfSubset(Below(cmp, keys, x), Below(cmp, keys, y) - {x});
    }
  }

  /** Ranks are ordered as the keys are, for any comparator and any finite set of keys. */
  lemma RankKeepsOrder(cmp: D.Comparator, keys: set<D.Bytes>, x: D.Bytes, y: D.Bytes)
    requires D.IsComparator(cmp) && x in keys && y in keys
    ensures cmp(x, y) < 0 <==> Rank(cmp, keys, x) < Rank(cmp, keys, y)
    ensures cmp(x, y) == 0 <==> Rank(cmp, keys, x) == Rank(cmp, keys, y)
  {
    assert D.Sign(cmp(x, y)) == -D.Sign(cmp(y, x));
    if cmp(x, y) <= 0 {
      RankGrows(cmp, keys, x, y);
    }
    if cmp(y, x) <= 0 {
      RankGrows(cmp, keys, y, x);
    }
  }

  ghost function Ranked(cmp: D.Comparator, keys: set<D.Bytes>, key: D.ParsedInternalKey): S.InternalKey {
    S.InternalKey(Rank(cmp, keys, key.userKey), key.sequence, key.kind)
  }

  lemma EncodedOrderIsBefore(cmp: D.Comparator, keys: set<D.Bytes>, a: D.ParsedInternalKey, b: D.ParsedInternalKey)
    requires D.IsComparator(cmp) && a.userKey in keys && b.userKey in keys && a.Valid() && b.Valid()
    ensures |D.Encode(a)| >= D.NUM_INTERNAL_BYTES && |D.Encode(b)| >= D.NUM_INTERNAL_BYTES
    ensures D.Compare(cmp, D.Encode(a), D.Encode(b)) < 0 <==> S.Before(Ranked(cmp, keys, a), Ranked(cmp, keys, b))
  {
    D.EncodedAgreesWithParsed(cmp, a, b);
    RankKeepsOrder(cmp, keys, a.userKey, b.userKey);
  }

  // ----- Runs of encoded entries -----

  datatype EncodedEntry = EncodedEntry(key: D.Bytes, value: S.Value)

  function TypeOf(kind: D.Byte): S.ValueType {
    if kind == 0 then S.Deletion
    else if kind == 1 then S.Put
    else if kind == D.TYPE_MERGE then S.Merge
    else if kind == D.TYPE_SINGLE_DELETION then S.SingleDeletion
    else S.RangeDeletion
  }

  /** A point entry of one of the types an iterator may meet, whose user key is among `keys`. */
  ghost predicate Readable(keys: set<D.Bytes>, e: EncodedEntry) {
    && D.Parse(e.key).Parsed? && D.Parse(e.key).key.userKey in keys
    && D.Parse(e.key).key.sequence < MAX_SEQUENCE
    && D.Parse(e.key).key.kind in {0, 1, D.TYPE_MERGE, D.TYPE_SINGLE_DELETION}
  }

  ghost predicate AllReadable(keys: set<D.Bytes>, run: seq<EncodedEntry>) {
    forall i | 0 <= i < |run| :: Readable(keys, run[i])
  }

  ghost function RankedEntry(cmp: D.Comparator, keys: set<D.Bytes>, e: EncodedEntry): S.Entry
    requires Readable(keys, e)
  {
    var key := D.Parse(e.key).key;
    S.Entry(Rank(cmp, keys, key.userKey), key.sequence, TypeOf(key.kind), e.value)
  }

  ghost function RankedRun(cmp: D.Comparator, keys: set<D.Bytes>, run: seq<EncodedEntry>): (r: seq<S.Entry>)
    requires AllReadable(keys, run)
    ensures |r| == |run|
  {
    seq(|run|, i requires 0 <= i < |run| => RankedEntry(cmp, keys, run[i]))
  }

  lemma RankedKey(cmp: D.Comparator, keys: set<D.Bytes>, e: EncodedEntry)
    requires Readable(keys, e)
    ensures var key := D.Parse(e.key).key;
            && key.Valid() && D.Encode(key) == e.key && |e.key| >= D.NUM_INTERNAL_BYTES
            && S.KeyOf(RankedEntry(cmp, keys, e)) == Ranked(cmp, keys, key)
  {
    D.AppendUndoesParse(e.key);
  }

  /** Strictly sorted with at most one entry for a user key and a sequence number, as a database writes them. */
  ghost predicate SortedRun(cmp: D.Comparator, run: seq<EncodedEntry>) {
    && (forall i | 0 <= i < |run| :: |run[i].key| >= D.NUM_INTERNAL_BYTES)
    && forall i, j | 0 <= i < j < |run| :: D.CompareKeySeq(cmp, run[i].key, run[j].key) < 0
  }

  lemma PairOrder(cmp: D.Comparator, keys: set<D.Bytes>, a: EncodedEntry, b: EncodedEntry)
    requires D.IsComparator(cmp) && Readable(keys, a) && Readable(keys, b)
    ensures |a.key| >= D.NUM_INTERNAL_BYTES && |b.key| >= D.NUM_INTERNAL_BYTES
    ensures var x, y := RankedEntry(cmp, keys, a), RankedEntry(cmp, keys, b);
            D.CompareKeySeq(cmp, a.key, b.key) < 0 <==> x.key < y.key || (x.key == y.key && x.seqno > y.seqno)
  {
    var x, y := D.Parse(a.key).key, D.Parse(b.key).key;
    RankedKey(cmp, keys, a);
    RankedKey(cmp, keys, b);
    RankKeepsOrder(cmp, keys, x.userKey, y.userKey);
    D.PartsOfEncoded(x);
    D.PartsOfEncoded(y);
    D.FooterValue(x.sequence, x.kind);
    D.FooterValue(y.sequence, y.kind);
  }

  /** The run of numbered entries is in the specification's order if and only if the encoded run is sorted. */
  lemma RankedRunIsOrdered(cmp: D.Comparator, keys: set<D.Bytes>, run: seq<EncodedEntry>)
    requires D.IsComparator(cmp) && AllReadable(keys, run)
    ensures S.Ordered(RankedRun(cmp, keys, run)) <==> SortedRun(cmp, run)
  {
    hide Readable, RankedEntry;
    var r := RankedRun(cmp, keys, run);
    forall i | 0 <= i < |run|
      ensures |run[i].key| >= D.NUM_INTERNAL_BYTES
    {
      PairOrder(cmp, keys, run[i], run[i]);
    }
    forall i, j | 0 <= i < j < |run|
      ensures D.CompareKeySeq(cmp, run[i].key, run[j].key) < 0
              <==> r[i].key < r[j].key || (r[i].key == r[j].key && r[i].seqno > r[j].seqno)
    {
      PairOrder(cmp, keys, run[i], run[j]);
    }
  }

  /** So whatever snapshot of a sorted encoded run is well-formed, and all that is proved of the iterator holds. */
  lemma RankedSnapshotIsWellFormed(cmp: D.Comparator, keys: set<D.Bytes>, run: seq<EncodedEntry>, s: S.Snapshot)
    requires D.IsComparator(cmp) && AllReadable(keys, run) && SortedRun(cmp, run)
    requires s.entries == RankedRun(cmp, keys, run) && s.sequence <= MAX_SEQUENCE
    ensures S.WellFormed(s)
  {
    RankedRunIsOrdered(cmp, keys, run);
  }

  // ----- Seeks -----

  /** Position `n` is where a seek for the encoded target lands. */
  ghost predicate SeekLandsAt(cmp: D.Comparator, run: seq<EncodedEntry>, target: D.Bytes, n: int)
    requires |target| >= D.NUM_INTERNAL_BYTES
    requires forall i | 0 <= i < |run| :: |run[i].key| >= D.NUM_INTERNAL_BYTES
  {
    && 0 <= n <= |run|
    && (forall i | 0 <= i < n :: D.Compare(cmp, run[i].key, target) < 0)
    && (n < |run| ==> D.Compare(cmp, run[n].key, target) >= 0)
  }

  ghost predicate SeekForPrevLandsAt(cmp: D.Comparator, run: seq<EncodedEntry>, target: D.Bytes, n: int)
    requires |target| >= D.NUM_INTERNAL_BYTES
    requires forall i | 0 <= i < |run| :: |run[i].key| >= D.NUM_INTERNAL_BYTES
  {
    && -1 <= n < |run|
    && (forall i | n < i < |run| :: D.Compare(cmp, run[i].key, target) > 0)
    && (n >= 0 ==> D.Compare(cmp, run[n].key, target) <= 0)
  }

  lemma EntryAgainstTarget(cmp: D.Comparator, keys: set<D.Bytes>, e: EncodedEntry, target: D.ParsedInternalKey)
    requires D.IsComparator(cmp) && Readable(keys, e) && target.Valid() && target.userKey in keys
    ensures |e.key| >= D.NUM_INTERNAL_BYTES && |D.Encode(target)| >= D.NUM_INTERNAL_BYTES
    ensures var x, t := S.KeyOf(RankedEntry(cmp, keys, e)), Ranked(cmp, keys, target);
            && (D.Compare(cmp, e.key, D.Encode(target)) < 0 <==> S.Before(x, t))
            && (D.Compare(cmp, e.key, D.Encode(target)) > 0 <==> S.Before(t, x))
  {
    var key := D.Parse(e.key).key;
    RankedKey(cmp, keys, e);
    EncodedOrderIsBefore(cmp, keys, key, target);
    EncodedOrderIsBefore(cmp, keys, target, key);
    D.CompareIsTotalOrder(cmp, e.key, D.Encode(target), e.key);
  }

  /** The wrapped iterator, which seeks among numbered entries, comes to rest where a seek among the encoded
      ones does. */
  lemma SeeksLandAlike(
    cmp: D.Comparator, keys: set<D.Bytes>, run: seq<EncodedEntry>, target: D.ParsedInternalKey, n: int)
    requires D.IsComparator(cmp) && AllReadable(keys, run) && target.Valid() && target.userKey in keys
    ensures |D.Encode(target)| >= D.NUM_INTERNAL_BYTES
    ensures forall i | 0 <= i < |run| :: |run[i].key| >= D.NUM_INTERNAL_BYTES
    ensures var r, t := RankedRun(cmp, keys, run), Ranked(cmp, keys, target);
            && (SeekLandsAt(cmp, run, D.Encode(target), n) <==> I.SeekLandsAt(r, t, n))
            && (SeekForPrevLandsAt(cmp, run, D.Encode(target), n) <==> I.SeekForPrevLandsAt(r, t, n))
  {
    hide Readable, RankedEntry, Ranked, D.Compare, S.Before;
    var r, t := RankedRun(cmp, keys, run), Ranked(cmp, keys, target);
    EncodedOrderIsBefore(cmp, keys, target, target);
    forall i | 0 <= i < |run|
      ensures |run[i].key| >= D.NUM_INTERNAL_BYTES
      ensures D.Compare(cmp, run[i].key, D.Encode(target)) < 0 <==> S.Before(S.KeyOf(r[i]), t)
      ensures D.Compare(cmp, run[i].key, D.Encode(target)) > 0 <==> S.Before(t, S.KeyOf(r[i]))
    {
      EntryAgainstTarget(cmp, keys, run[i], target);
    }
  }
}
