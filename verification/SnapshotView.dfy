/** What a reader with a fixed snapshot is supposed to see: the specification that `DbIter` implements.

    User keys are represented by their rank in the user comparator's order. */
module SnapshotView {
  import opened SequenceNumbers
  import opened Wrappers

  type UserKey = int
  type Value = seq<bv8>

  /** RangeDeletion marks a version that a range tombstone hides; it is never the type of an entry. */
  datatype ValueType = Deletion | Put | Merge | SingleDeletion | RangeDeletion {
    /** The byte stored for this type in an internal key. */
    function Code(): nat {
      match this
      case Deletion => 0
      case Put => 1
      case Merge => 2
      case SingleDeletion => 7
      case RangeDeletion => 15
    }

    predicate IsDeletion() {
      Deletion? || SingleDeletion? || RangeDeletion?
    }
  }

  /** kValueTypeForSeek and kValueTypeForSeekForPrev. */
  const SEEK_CODE: nat := 0x14
  const SEEK_FOR_PREV_CODE: nat := 0

  datatype Entry = Entry(key: UserKey, seqno: nat, kind: ValueType, value: Value)
  datatype InternalKey = InternalKey(key: UserKey, seqno: nat, code: nat)
  datatype RangeTombstone = RangeTombstone(start: UserKey, end: UserKey, seqno: nat)

  /** FullMergeV2 fails, or produces a value of its own, or names one of its operands as the result. */
  datatype MergeOutput = MergeFailed | NewValue(value: Value) | ExistingOperand(value: Value)
  type MergeOperator = (UserKey, Option<Value>, seq<Value>) -> MergeOutput

  /** Everything an iterator reads that does not change while it lives. */
  datatype Snapshot = Snapshot(
    entries: seq<Entry>,
    sequence: nat,
    tombstones: seq<RangeTombstone>,
    lowerBound: Option<UserKey>,
    upperBound: Option<UserKey>,
    mergeOperator: MergeOperator)

  /** Internal key order: increasing user key, then decreasing sequence number, then decreasing type. */
  predicate Before(a: InternalKey, b: InternalKey) {
    || a.key < b.key
    || (a.key == b.key && (a.seqno > b.seqno || (a.seqno == b.seqno && a.code > b.code)))
  }

  function KeyOf(e: Entry): InternalKey {
    InternalKey(e.key, e.seqno, e.kind.Code())
  }

  ghost predicate Ordered(es: seq<Entry>) {
    forall i, j | 0 <= i < j < |es| ::
      es[i].key < es[j].key || (es[i].key == es[j].key && es[i].seqno > es[j].seqno)
  }

  ghost predicate WellFormed(s: Snapshot) {
    && Ordered(s.entries)
    && s.sequence <= MAX_SEQUENCE
    && forall i | 0 <= i < |s.entries| :: s.entries[i].seqno < MAX_SEQUENCE && !s.entries[i].kind.RangeDeletion?
  }

  predicate Visible(s: Snapshot, e: Entry) {
    e.seqno <= s.sequence
  }

  /** ShouldDelete: some range tombstone the snapshot can see is newer than the entry and spans its key. */
  predicate Covered(s: Snapshot, e: Entry) {
    exists t | t in s.tombstones :: t.start <= e.key < t.end && e.seqno < t.seqno <= s.sequence
  }

  predicate InBounds(s: Snapshot, k: UserKey) {
    && (s.lowerBound.Some? ==> s.lowerBound.value <= k)
    && (s.upperBound.Some? ==> k < s.upperBound.value)
  }

  // ----- Meaning of one key: replay its writes in the order they were made -----

  datatype KeyState = Gone | Stored(value: Value) | Merged(base: Option<Value>, operands: seq<Value>)

  function BaseOf(st: KeyState): Option<Value> {
    match st
    case Gone => None
    case Stored(v) => Some(v)
    case Merged(b, _) => b
  }

  /** Merge operands not yet folded, oldest first. */
  function OperandsOf(st: KeyState): seq<Value> {
    if st.Merged? then st.operands else []
  }

  function Write(s: Snapshot, e: Entry, older: KeyState): KeyState {
    if e.kind.IsDeletion() || Covered(s, e) then Gone
    else if e.kind.Put? then Stored(e.value)
    else Merged(BaseOf(older), OperandsOf(older) + [e.value])
  }

  /** The state of key `k` after replaying those of its visible writes that sit at index `i` or later. The
      entries of a key run from newest to oldest, so the writes are applied from the end of the run. */
  function Replay(s: Snapshot, i: nat, k: UserKey): KeyState
    requires i <= |s.entries|
    decreases |s.entries| - i
  {
    if i == |s.entries| then Gone
    else
      var older := Replay(s, i + 1, k);
      if s.entries[i].key == k && Visible(s, s.entries[i]) then Write(s, s.entries[i], older) else older
  }

  datatype Lookup = Absent | Found(value: Value) | Failed

  /** What the answer of the merge operator makes of a lookup. */
  function Answer(output: MergeOutput): Lookup {
    match output
    case MergeFailed => Failed
    case NewValue(v) => Found(v)
    case ExistingOperand(v) => Found(v)
  }

  function Finish(s: Snapshot, k: UserKey, st: KeyState): Lookup {
    match st
    case Gone => Absent
    case Stored(v) => Found(v)
    case Merged(base, operands) => Answer(s.mergeOperator(k, base, operands))
  }

  /** What a point lookup of `k` at the snapshot returns. */
  function Get(s: Snapshot, k: UserKey): Lookup {
    Finish(s, k, Replay(s, 0, k))
  }

  /** Keys an iterator has to stop at. */
  predicate Yields(s: Snapshot, k: UserKey) {
    InBounds(s, k) && Get(s, k) != Absent
  }

  // ----- The view: every key that yields, in order -----

  datatype Item = Item(key: UserKey, result: Lookup)

  predicate StartsKey(s: Snapshot, i: nat)
    requires i < |s.entries|
  {
    i == 0 || s.entries[i - 1].key != s.entries[i].key
  }

  function ViewFrom(s: Snapshot, i: nat): seq<Item>
    requires i <= |s.entries|
    decreases |s.entries| - i
  {
    if i == |s.entries| then []
    else
      var k := s.entries[i].key;
      (if StartsKey(s, i) && Yields(s, k) then [Item(k, Get(s, k))] else []) + ViewFrom(s, i + 1)
  }

  function View(s: Snapshot): seq<Item> {
    ViewFrom(s, 0)
  }

  ghost predicate StrictlyIncreasing(items: seq<Item>) {
    forall i, j | 0 <= i < j < |items| :: items[i].key < items[j].key
  }

  /** Index just after the last entry that contributes to a merge of `k` whose operands up to `i` are
      already collected: the first put or tombstone of `k` is used up, the first other key is not. */
  function MergeEnd(s: Snapshot, i: nat, k: UserKey): (r: nat)
    requires i <= |s.entries|
    ensures i <= r <= |s.entries|
    decreases |s.entries| - i
  {
    if i == |s.entries| || s.entries[i].key != k then i
    else if s.entries[i].kind.Merge? && !Covered(s, s.entries[i]) then MergeEnd(s, i + 1, k)
    else i + 1
  }

  ghost predicate NewestVisible(s: Snapshot, p: nat, k: UserKey) {
    && p < |s.entries| && s.entries[p].key == k && Visible(s, s.entries[p])
    && forall m | 0 <= m < p :: s.entries[m].key == k ==> !Visible(s, s.entries[m])
  }

  // ----- Lemmas about Replay -----

  /** Entries that are not visible versions of `k` do not matter to `k`. */
  lemma {:induction false} ReplaySkips(s: Snapshot, i: nat, j: nat, k: UserKey)
    requires i <= j <= |s.entries|
    requires forall m | i <= m < j :: s.entries[m].key == k ==> !Visible(s, s.entries[m])
    ensures Replay(s, i, k) == Replay(s, j, k)
    decreases j - i
  {
    if i < j {
      ReplaySkips(s, i + 1, j, k);
    }
  }

  /** A key with no visible version reads as absent. */
  lemma NoVersionNoYield(s: Snapshot, k: UserKey)
    requires forall m | 0 <= m < |s.entries| :: s.entries[m].key == k ==> !Visible(s, s.entries[m])
    ensures !Yields(s, k)
  {
    ReplaySkips(s, 0, |s.entries|, k);
  }

  /** Only the versions from the newest visible one on decide what a key reads as. */
  lemma NewestVisibleDecides(s: Snapshot, p: nat, k: UserKey)
    requires NewestVisible(s, p, k)
    ensures Get(s, k) == Finish(s, k, Write(s, s.entries[p], Replay(s, p + 1, k)))
  {
    ReplaySkips(s, 0, p, k);
  }

  /** A key that yields has an entry. */
  lemma YieldsHasEntry(s: Snapshot, k: UserKey) returns (m: nat)
    requires Yields(s, k)
    ensures m < |s.entries| && s.entries[m].key == k && Visible(s, s.entries[m])
  {
    if forall m | 0 <= m < |s.entries| :: s.entries[m].key == k ==> !Visible(s, s.entries[m]) {
      NoVersionNoYield(s, k);
      assert false;
    }
    m :| 0 <= m < |s.entries| && s.entries[m].key == k && Visible(s, s.entries[m]);
  }

  /** Keys outside the range of the entries do not yield. */
  lemma NoYieldOutsideEntries(s: Snapshot)
    requires WellFormed(s)
    ensures forall k | Yields(s, k) ::
              |s.entries| > 0 && s.entries[0].key <= k <= s.entries[|s.entries| - 1].key
  {
    forall k | Yields(s, k)
      ensures |s.entries| > 0 && s.entries[0].key <= k <= s.entries[|s.entries| - 1].key
    {
      var m := YieldsHasEntry(s, k);
    }
  }

  // ----- Collecting merge operands from newest to oldest -----

  /** `operands` are the values of the uncovered merges of `k` from its newest visible version `p` up to, but
      not including, entry `q`. */
  ghost predicate Collected(s: Snapshot, p: nat, q: nat, k: UserKey, operands: seq<Value>) {
    && p < q <= |s.entries|
    && NewestVisible(s, p, k)
    && MergeEnd(s, q, k) == MergeEnd(s, p + 1, k)
    && s.entries[q - 1].key == k
    && var older := Replay(s, q, k);
       Get(s, k) == Finish(s, k, Merged(BaseOf(older), OperandsOf(older) + operands))
  }

  lemma FirstOperand(s: Snapshot, p: nat, k: UserKey)
    requires NewestVisible(s, p, k) && s.entries[p].kind.Merge? && !Covered(s, s.entries[p])
    ensures Collected(s, p, p + 1, k, [s.entries[p].value])
  {
    NewestVisibleDecides(s, p, k);
  }

  lemma NextOperand(s: Snapshot, p: nat, q: nat, k: UserKey, operands: seq<Value>)
    requires WellFormed(s) && Collected(s, p, q, k, operands) && q < |s.entries|
    requires s.entries[q].key == k && s.entries[q].kind.Merge? && !Covered(s, s.entries[q])
    ensures Collected(s, p, q + 1, k, [s.entries[q].value] + operands)
  {
    assert Visible(s, s.entries[q]);
    var older := Replay(s, q + 1, k);
    assert OperandsOf(older) + [s.entries[q].value] + operands
        == OperandsOf(older) + ([s.entries[q].value] + operands);
  }

  /** A put ends the chain: it is the base the operands are applied to. */
  lemma PutEndsMerge(s: Snapshot, p: nat, q: nat, k: UserKey, operands: seq<Value>)
    requires WellFormed(s) && Collected(s, p, q, k, operands) && q < |s.entries|
    requires s.entries[q].key == k && s.entries[q].kind.Put? && !Covered(s, s.entries[q])
    ensures Get(s, k) == Finish(s, k, Merged(Some(s.entries[q].value), operands))
    ensures MergeEnd(s, p + 1, k) == q + 1
  {
    assert Visible(s, s.entries[q]);
    assert [] + operands == operands;
  }

  /** A tombstone, another key or the end of the run ends the chain: there is no base. */
  lemma NothingEndsMerge(s: Snapshot, p: nat, q: nat, k: UserKey, operands: seq<Value>)
    requires WellFormed(s) && Collected(s, p, q, k, operands)
    requires q < |s.entries| && s.entries[q].key == k ==> s.entries[q].kind.IsDeletion() || Covered(s, s.entries[q])
    ensures Get(s, k) == Finish(s, k, Merged(None, operands))
    ensures MergeEnd(s, p + 1, k) == if q < |s.entries| && s.entries[q].key == k then q + 1 else q
  {
    if q < |s.entries| {
      if s.entries[q].key == k {
        assert Visible(s, s.entries[q]);
      } else {
        ReplaySkips(s, q, |s.entries|, k);
      }
    }
    assert [] + operands == operands;
  }

  lemma {:induction false} MergeEndStaysInKey(s: Snapshot, i: nat, k: UserKey)
    requires 0 < i <= |s.entries| && s.entries[i - 1].key == k
    ensures s.entries[MergeEnd(s, i, k) - 1].key == k
    decreases |s.entries| - i
  {
    if i < |s.entries| && s.entries[i].key == k && s.entries[i].kind.Merge? && !Covered(s, s.entries[i]) {
      MergeEndStaysInKey(s, i + 1, k);
    }
  }

  /** Sequence number 0 is the oldest there is: nothing of the key is left to merge with. */
  lemma MergeEndAfterSequenceZero(s: Snapshot, p: nat)
    requires WellFormed(s) && p < |s.entries|
    ensures s.entries[p].seqno == 0 ==> MergeEnd(s, p + 1, s.entries[p].key) == p + 1
  {
  }

  // ----- What a key reads as, in terms of its entries -----

  /** The values of the entries from `p` up to `q`, oldest first: the entries run from new to old. */
  function OldestFirst(s: Snapshot, p: nat, q: nat): (r: seq<Value>)
    requires p <= q <= |s.entries|
    ensures |r| == q - p && forall i | 0 <= i < q - p :: r[i] == s.entries[q - 1 - i].value
    decreases q - p
  {
    if p == q then [] else OldestFirst(s, p + 1, q) + [s.entries[p].value]
  }

  /** The merges of `k` that no tombstone hides, from its newest visible version `p` up to `q`. */
  ghost predicate MergesOf(s: Snapshot, p: nat, q: nat, k: UserKey) {
    && p < q <= |s.entries| && NewestVisible(s, p, k)
    && forall m | p <= m < q :: s.entries[m].key == k && s.entries[m].kind.Merge? && !Covered(s, s.entries[m])
  }

  lemma {:induction false} ReplayMerges(s: Snapshot, p: nat, q: nat, k: UserKey)
    requires WellFormed(s) && p < q <= |s.entries|
    requires forall m | p <= m < q ::
               && s.entries[m].key == k && Visible(s, s.entries[m])
               && s.entries[m].kind.Merge? && !Covered(s, s.entries[m])
    ensures var older := Replay(s, q, k);
            Replay(s, p, k) == Merged(BaseOf(older), OperandsOf(older) + OldestFirst(s, p, q))
    decreases q - p
  {
    var older := Replay(s, q, k);
    if p + 1 < q {
      ReplayMerges(s, p + 1, q, k);
      assert OperandsOf(older) + OldestFirst(s, p + 1, q) + [s.entries[p].value]
          == OperandsOf(older) + OldestFirst(s, p, q);
    }
  }

  lemma AllVisible(s: Snapshot, p: nat, q: nat, k: UserKey)
    requires WellFormed(s) && MergesOf(s, p, q, k)
    ensures forall m | p <= m < |s.entries| && s.entries[m].key == k :: Visible(s, s.entries[m])
  {
  }

  /** Merges down to a put: the operator gets the value of the put and the operands, oldest first. */
  lemma MergesOntoPut(s: Snapshot, p: nat, q: nat, k: UserKey)
    requires WellFormed(s) && MergesOf(s, p, q, k) && q < |s.entries|
    requires s.entries[q].key == k && s.entries[q].kind.Put? && !Covered(s, s.entries[q])
    ensures Get(s, k) == Answer(s.mergeOperator(k, Some(s.entries[q].value), OldestFirst(s, p, q)))
  {
    AllVisible(s, p, q, k);
    ReplaySkips(s, 0, p, k);
    ReplayMerges(s, p, q, k);
    assert [] + OldestFirst(s, p, q) == OldestFirst(s, p, q);
  }

  /** Merges down to a tombstone, or to the end of the key: the operator gets no base. */
  lemma MergesOntoNothing(s: Snapshot, p: nat, q: nat, k: UserKey)
    requires WellFormed(s) && MergesOf(s, p, q, k)
    requires q < |s.entries| && s.entries[q].key == k ==> s.entries[q].kind.IsDeletion() || Covered(s, s.entries[q])
    ensures Get(s, k) == Answer(s.mergeOperator(k, None, OldestFirst(s, p, q)))
  {
    AllVisible(s, p, q, k);
    ReplaySkips(s, 0, p, k);
    ReplayMerges(s, p, q, k);
    if q < |s.entries| && s.entries[q].key != k {
      ReplaySkips(s, q, |s.entries|, k);
    }
    assert [] + OldestFirst(s, p, q) == OldestFirst(s, p, q);
  }

  /** A put, a deletion or a hidden entry as the newest visible version decides alone; a merge is never absent. */
  lemma NewestDecidesAlone(s: Snapshot, p: nat, k: UserKey)
    requires NewestVisible(s, p, k)
    ensures s.entries[p].kind.Put? && !Covered(s, s.entries[p]) ==> Get(s, k) == Found(s.entries[p].value)
    ensures s.entries[p].kind.IsDeletion() || Covered(s, s.entries[p]) ==> Get(s, k) == Absent
    ensures s.entries[p].kind.Merge? && !Covered(s, s.entries[p]) ==> Get(s, k) != Absent
  {
    NewestVisibleDecides(s, p, k);
  }

  /** One put and one range tombstone: the put is read exactly if the snapshot includes it, and does not include the
      tombstone, or the tombstone is older or does not span the key; it spans its start key and not its end key. */
  lemma PutUnderTombstone(k: UserKey, seqno: nat, v: Value, t: RangeTombstone, sequence: nat, op: MergeOperator)
    ensures var s := Snapshot([Entry(k, seqno, Put, v)], sequence, [t], None, None, op);
            Get(s, k) == if seqno <= sequence && !(t.start <= k < t.end && seqno < t.seqno <= sequence)
                         then Found(v) else Absent
  {
    var s := Snapshot([Entry(k, seqno, Put, v)], sequence, [t], None, None, op);
    assert t in s.tombstones;
    assert Replay(s, 1, k) == Gone;
    assert Replay(s, 0, k) == if seqno <= sequence then Write(s, s.entries[0], Gone) else Gone;
  }

  // ----- What the snapshot does not include -----

  /** The tombstones the snapshot includes are the same in both. */
  ghost predicate SameTombstones(s: Snapshot, s': Snapshot) {
    forall t: RangeTombstone | t.seqno <= s.sequence :: t in s.tombstones <==> t in s'.tombstones
  }

  lemma {:induction false} ReplayWithSameTombstones(s: Snapshot, s': Snapshot, i: nat, k: UserKey)
    requires s' == s.(tombstones := s'.tombstones) && SameTombstones(s, s') && i <= |s.entries|
    ensures Replay(s', i, k) == Replay(s, i, k)
    decreases |s.entries| - i
  {
    if i < |s.entries| {
      ReplayWithSameTombstones(s, s', i + 1, k);
      assert Covered(s', s.entries[i]) <==> Covered(s, s.entries[i]);
    }
  }

  /** Tombstones above the snapshot change no lookup. */
  lemma NewerTombstonesDoNotMatter(s: Snapshot, s': Snapshot, k: UserKey)
    requires s' == s.(tombstones := s'.tombstones) && SameTombstones(s, s')
    ensures Get(s', k) == Get(s, k)
  {
    ReplayWithSameTombstones(s, s', 0, k);
  }

  function Inserted(s: Snapshot, j: nat, e: Entry): Snapshot
    requires j <= |s.entries|
  {
    s.(entries := s.entries[..j] + [e] + s.entries[j..])
  }

  lemma {:induction false} ReplayWithNewerEntry(s: Snapshot, j: nat, e: Entry, i: nat, k: UserKey)
    requires j <= |s.entries| && i <= |s.entries| && e.seqno > s.sequence
    ensures Replay(Inserted(s, j, e), if i > j then i + 1 else i, k) == Replay(s, i, k)
    ensures i == j ==> Replay(Inserted(s, j, e), j + 1, k) == Replay(s, j, k)
    decreases |s.entries| - i
  {
    if i < |s.entries| {
      ReplayWithNewerEntry(s, j, e, i + 1, k);
      var s' := Inserted(s, j, e);
      assert s'.entries[if i >= j then i + 1 else i] == s.entries[i];
      assert Covered(s', s.entries[i]) <==> Covered(s, s.entries[i]);
    }
  }

  /** Entries above the snapshot change no lookup. */
  lemma NewerEntriesDoNotMatter(s: Snapshot, j: nat, e: Entry, k: UserKey)
    requires j <= |s.entries| && e.seqno > s.sequence
    ensures Get(Inserted(s, j, e), k) == Get(s, k)
  {
    ReplayWithNewerEntry(s, j, e, 0, k);
  }

  // ----- Lemmas about the view -----

  lemma {:induction false} ViewFromIsSorted(s: Snapshot, i: nat)
    requires WellFormed(s) && i <= |s.entries|
    ensures StrictlyIncreasing(ViewFrom(s, i))
    ensures forall m | 0 <= m < |ViewFrom(s, i)| ::
              && Yields(s, ViewFrom(s, i)[m].key)
              && ViewFrom(s, i)[m].result == Get(s, ViewFrom(s, i)[m].key)
              && i < |s.entries|
              && (if StartsKey(s, i) then s.entries[i].key <= ViewFrom(s, i)[m].key
                  else s.entries[i].key < ViewFrom(s, i)[m].key)
    decreases |s.entries| - i
  {
    if i < |s.entries| {
      ViewFromIsSorted(s, i + 1);
    }
  }

  lemma {:induction false} ViewFromIsComplete(s: Snapshot, i: nat, m: nat)
    requires WellFormed(s) && i <= m < |s.entries|
    requires StartsKey(s, m) && Yields(s, s.entries[m].key)
    ensures exists j :: 0 <= j < |ViewFrom(s, i)| && ViewFrom(s, i)[j].key == s.entries[m].key
    decreases |s.entries| - i
  {
    if i == m {
      assert ViewFrom(s, i)[0].key == s.entries[m].key;
    } else {
      ViewFromIsComplete(s, i + 1, m);
      var rest := ViewFrom(s, i + 1);
      var j :| 0 <= j < |rest| && rest[j].key == s.entries[m].key;
      assert ViewFrom(s, i)[|ViewFrom(s, i)| - |rest| + j] == rest[j];
    }
  }

  lemma {:induction false} KeyHasStart(s: Snapshot, m: nat) returns (first: nat)
    requires m < |s.entries|
    ensures first <= m && StartsKey(s, first) && s.entries[first].key == s.entries[m].key
  {
    first := m;
    while !StartsKey(s, first)
      invariant first <= m && s.entries[first].key == s.entries[m].key
      decreases first
    {
      first := first - 1;
    }
  }

  /** The view lists, in strictly increasing key order, exactly the in-bounds keys that a point lookup finds
      (or whose merge fails), each with the result of that lookup. */
  lemma ViewIsSnapshot(s: Snapshot)
    requires WellFormed(s)
    ensures StrictlyIncreasing(View(s))
    ensures forall m | 0 <= m < |View(s)| ::
              Yields(s, View(s)[m].key) && View(s)[m].result == Get(s, View(s)[m].key)
    ensures forall k :: Yields(s, k) ==> exists m :: 0 <= m < |View(s)| && View(s)[m].key == k
  {
    ViewFromIsSorted(s, 0);
    forall k | Yields(s, k)
      ensures exists m :: 0 <= m < |View(s)| && View(s)[m].key == k
    {
      var m := YieldsHasEntry(s, k);
      var first := KeyHasStart(s, m);
      ViewFromIsComplete(s, 0, first);
      var j :| 0 <= j < |ViewFrom(s, 0)| && ViewFrom(s, 0)[j].key == k;
      assert View(s)[j].key == k;
    }
  }

  /** Nothing outside the bounds is shown: the lower one is included, the upper one is not. */
  lemma ViewIsWithinBounds(s: Snapshot)
    requires WellFormed(s)
    ensures forall i | 0 <= i < |View(s)| ::
              && (s.lowerBound.Some? ==> s.lowerBound.value <= View(s)[i].key)
              && (s.upperBound.Some? ==> View(s)[i].key < s.upperBound.value)
    ensures forall k | Get(s, k) != Absent && (s.lowerBound.Some? ==> s.lowerBound.value <= k)
                       && (s.upperBound.Some? ==> k < s.upperBound.value) ::
              exists i :: 0 <= i < |View(s)| && View(s)[i].key == k
  {
    ViewIsSnapshot(s);
    forall k | Get(s, k) != Absent && (s.lowerBound.Some? ==> s.lowerBound.value <= k)
               && (s.upperBound.Some? ==> k < s.upperBound.value)
      ensures exists i :: 0 <= i < |View(s)| && View(s)[i].key == k
    {
      assert Yields(s, k);
    }
  }

  // ----- The example in the header of DBIter -----

  const AAA: UserKey := 0
  const BBB: UserKey := 1
  const BBC: UserKey := 2

  function ExampleEntries(v1: Value, v2: Value, v3: Value): seq<Entry> {
    [Entry(AAA, 100, Put, v3), Entry(AAA, 97, Put, v2), Entry(AAA, 95, Put, v1), Entry(BBB, 90, Put, v1),
     Entry(BBC, 98, Deletion, []), Entry(BBC, 95, Put, v1)]
  }

  function ExampleAt(sequence: nat, v1: Value, v2: Value, v3: Value, op: MergeOperator): Snapshot {
    Snapshot(ExampleEntries(v1, v2, v3), sequence, [], None, None, op)
  }

  lemma ExampleKeys(s: Snapshot, i: nat)
    requires i < |s.entries| && NewestVisible(s, i, s.entries[i].key) && s.entries[i].kind.Put?
             && !Covered(s, s.entries[i])
    ensures Get(s, s.entries[i].key) == Found(s.entries[i].value)
  {
    NewestVisibleDecides(s, i, s.entries[i].key);
  }

  /** At sequence number 102 the iterator exposes AAA with v3 and BBB with v1; at 96 AAA, BBB and BBC, each with v1. */
  lemma HeaderExample(v1: Value, v2: Value, v3: Value, op: MergeOperator)
    ensures View(ExampleAt(102, v1, v2, v3, op)) == [Item(AAA, Found(v3)), Item(BBB, Found(v1))]
    ensures View(ExampleAt(96, v1, v2, v3, op)) == [Item(AAA, Found(v1)), Item(BBB, Found(v1)), Item(BBC, Found(v1))]
  {
    var a, b := ExampleAt(102, v1, v2, v3, op), ExampleAt(96, v1, v2, v3, op);
    ExampleKeys(a, 0);
    ExampleKeys(a, 3);
    NewestVisibleDecides(a, 4, BBC);
    ExampleKeys(b, 2);
    ExampleKeys(b, 3);
    ExampleKeys(b, 5);
    ExampleViews(a);
    ExampleViews(b);
  }

  /** Three keys, of which the one in the middle has a merge that fails. */
  function FailingMiddle(v: Value, w: Value): Snapshot {
    Snapshot([Entry(AAA, 1, Put, v), Entry(BBB, 2, Merge, v), Entry(BBC, 3, Put, w)], 3, [], None, None,
             (k, base, operands) => MergeFailed)
  }

  lemma FailingMiddleView(v: Value, w: Value)
    ensures WellFormed(FailingMiddle(v, w))
    ensures View(FailingMiddle(v, w)) == [Item(AAA, Found(v)), Item(BBB, Failed), Item(BBC, Found(w))]
  {
    var s := FailingMiddle(v, w);
    ExampleKeys(s, 0);
    NewestVisibleDecides(s, 1, BBB);
    ExampleKeys(s, 2);
    assert ViewFrom(s, 3) == [];
    assert ViewFrom(s, 2) == [Item(BBC, Found(w))] + ViewFrom(s, 3);
    assert ViewFrom(s, 1) == [Item(BBB, Failed)] + ViewFrom(s, 2);
  }

  lemma ExampleViews(s: Snapshot)
    requires |s.entries| == 6 && s.entries[0].key == s.entries[1].key == s.entries[2].key == AAA
    requires s.entries[3].key == BBB && s.entries[4].key == s.entries[5].key == BBC
    ensures View(s) == (if Yields(s, AAA) then [Item(AAA, Get(s, AAA))] else [])
                       + ((if Yields(s, BBB) then [Item(BBB, Get(s, BBB))] else [])
                          + (if Yields(s, BBC) then [Item(BBC, Get(s, BBC))] else []))
  {
    assert ViewFrom(s, 6) == [] && ViewFrom(s, 5) == ViewFrom(s, 6);
    assert ViewFrom(s, 4) == (if Yields(s, BBC) then [Item(BBC, Get(s, BBC))] else []) + ViewFrom(s, 5);
    assert ViewFrom(s, 3) == (if Yields(s, BBB) then [Item(BBB, Get(s, BBB))] else []) + ViewFrom(s, 4);
    assert ViewFrom(s, 2) == ViewFrom(s, 3) && ViewFrom(s, 1) == ViewFrom(s, 2);
  }
}
