/** What the backward search knows between two steps: the summary of a key's versions read from oldest to
    newest, and where the internal iterator stands relative to the key. */
module BackwardSearch {
  import opened Wrappers
  import opened SequenceNumbers
  import opened SnapshotView

  /** The variables of the backward scan of one key describe the key's state after the versions read so far. */
  ghost predicate Summarizes(
    st: KeyState, lastKind: ValueType, lastNotMergeKind: ValueType, pinned: Option<Value>, operands: seq<Value>)
  {
    match st
    case Gone => lastKind.IsDeletion() && lastNotMergeKind.IsDeletion() && operands == []
    case Stored(v) => lastKind.Put? && lastNotMergeKind.Put? && pinned == Some(v) && operands == []
    case Merged(base, ops) =>
      && lastKind.Merge? && operands == ops
      && if lastNotMergeKind.Put? then pinned.Some? && base == pinned else lastNotMergeKind.IsDeletion() && base.None?
  }

  /** Reading one more, newer, version of the key. */
  lemma ReadVersion(
    s: Snapshot, j: nat, lastKind: ValueType, lastNotMergeKind: ValueType, pinned: Option<Value>, operands: seq<Value>)
    requires j < |s.entries| && Visible(s, s.entries[j])
    requires Summarizes(Replay(s, j + 1, s.entries[j].key), lastKind, lastNotMergeKind, pinned, operands)
    ensures var e := s.entries[j];
            var st := Replay(s, j, e.key);
            if e.kind.IsDeletion() then Summarizes(st, e.kind, e.kind, pinned, [])
            else if Covered(s, e) then Summarizes(st, RangeDeletion, RangeDeletion, pinned, [])
            else if e.kind.Put? then Summarizes(st, Put, Put, Some(e.value), [])
            else Summarizes(st, Merge, lastNotMergeKind, pinned, operands + [e.value])
  {
  }

  /** Everything after entry `j` belongs to later keys or is a visible version of `k`. */
  ghost predicate ReadDownTo(s: Snapshot, j: int, k: UserKey) {
    && -1 <= j < |s.entries|
    && forall m | j < m < |s.entries| :: s.entries[m].key > k || (s.entries[m].key == k && Visible(s, s.entries[m]))
  }

  lemma ScanStarts(s: Snapshot, j: nat, k: UserKey)
    requires j < |s.entries| && s.entries[j].key == k && forall m | j < m < |s.entries| :: k < s.entries[m].key
    ensures Scanning(s, j, k) && Replay(s, j + 1, k) == Gone
  {
    ReplaySkips(s, j + 1, |s.entries|, k);
  }

  /** The scan may stop at the first entry that is not a visible version of the key. */
  lemma AllVersionsRead(s: Snapshot, j: int, k: UserKey)
    requires WellFormed(s) && Scanning(s, j, k)
    requires j >= 0 ==> s.entries[j].key != k || !Visible(s, s.entries[j])
    ensures Get(s, k) == Finish(s, k, Replay(s, j + 1, k))
  {
    ReplaySkips(s, 0, j + 1, k);
  }

  /** The iterator is on an entry of `k`, or just before them, or after them. */
  ghost predicate Near(s: Snapshot, pos: int, k: UserKey) {
    && -1 <= pos < |s.entries|
    && (pos < 0 || s.entries[pos].key < k ==> pos + 1 < |s.entries| && s.entries[pos + 1].key == k)
  }

  ghost predicate JustBefore(s: Snapshot, pos: int, k: UserKey) {
    && -1 <= pos && pos + 1 < |s.entries|
    && s.entries[pos + 1].key == k
    && (pos >= 0 ==> s.entries[pos].key < k)
  }

  ghost predicate HasKey(s: Snapshot, k: UserKey) {
    exists m :: 0 <= m < |s.entries| && s.entries[m].key == k
  }

  /** The scan of the versions of `k` has come down to entry `j`. */
  ghost predicate Scanning(s: Snapshot, j: int, k: UserKey) {
    ReadDownTo(s, j, k) && Near(s, j, k) && (j >= 0 ==> s.entries[j].key <= k)
  }

  lemma ScanContinues(s: Snapshot, j: int, k: UserKey)
    requires WellFormed(s) && Scanning(s, j, k)
    requires j >= 0 && s.entries[j].key == k && Visible(s, s.entries[j])
    ensures Scanning(s, j - 1, k)
  {
  }

  /** Everything after `pos` is after `hi`, and nothing between the current key and `hi` yields. */
  ghost predicate BackFrontier(s: Snapshot, pos: int, hi: UserKey) {
    && WellFormed(s) && -1 <= pos < |s.entries|
    && (forall m | 0 <= m <= pos :: s.entries[m].key <= hi)
    && (forall m | pos < m < |s.entries| :: s.entries[m].key <= hi ==> !Yields(s, s.entries[m].key))
    && (forall m | pos < m < |s.entries| :: pos >= 0 ==> s.entries[pos].key < s.entries[m].key)
  }

  /** The internal iterator is on the last entry of its key. */
  lemma LastOfItsKey(s: Snapshot, pos: int, hi: UserKey)
    requires BackFrontier(s, pos, hi) && pos >= 0
    ensures s.entries[pos].key <= hi && HasKey(s, s.entries[pos].key)
    ensures forall m | pos < m < |s.entries| :: s.entries[pos].key < s.entries[m].key
  {
  }

  /** No key between the current entry's and `hi` yields. */
  lemma NothingPassedOverBackward(s: Snapshot, pos: int, hi: UserKey)
    requires BackFrontier(s, pos, hi)
    ensures forall k | k <= hi && (pos >= 0 ==> s.entries[pos].key < k) :: !Yields(s, k)
  {
    forall k | k <= hi && (pos >= 0 ==> s.entries[pos].key < k)
      ensures !Yields(s, k)
    {
      if Yields(s, k) {
        var m := YieldsHasEntry(s, k);
        assert false;
      }
    }
  }

  /** A key that turned out not to yield is passed. */
  lemma PassKeyBackward(s: Snapshot, pos: int, hi: UserKey, pos': int)
    requires BackFrontier(s, pos, hi) && pos >= 0 && !Yields(s, s.entries[pos].key)
    requires JustBefore(s, pos', s.entries[pos].key)
    ensures BackFrontier(s, pos', hi) && pos' < pos
  {
    assert pos' + 1 <= pos;
  }

  // ----- Where a search starts -----

  /** From before the current key. */
  lemma StartsBeforeKey(s: Snapshot, pos: int, k: UserKey)
    requires WellFormed(s) && JustBefore(s, pos, k)
    ensures BackFrontier(s, pos, k - 1)
  {
    assert forall m | pos < m < |s.entries| :: k <= s.entries[m].key;
  }

  /** From the last entry of a seek target, or before it. */
  lemma StartsAtSeekForPrev(s: Snapshot, pos: int, k: UserKey)
    requires WellFormed(s) && -1 <= pos < |s.entries|
    requires forall m | pos < m < |s.entries| :: Before(InternalKey(k, 0, SEEK_FOR_PREV_CODE), KeyOf(s.entries[m]))
    requires pos >= 0 ==> !Before(InternalKey(k, 0, SEEK_FOR_PREV_CODE), KeyOf(s.entries[pos]))
    ensures BackFrontier(s, pos, k)
  {
    assert forall m | pos < m < |s.entries| :: k < s.entries[m].key;
  }

  /** From the last entry before the upper bound. */
  lemma StartsAtUpperBound(s: Snapshot, pos: int, bound: UserKey)
    requires WellFormed(s) && -1 <= pos < |s.entries|
    requires forall m | pos < m < |s.entries| ::
               Before(InternalKey(bound, MAX_SEQUENCE, SEEK_CODE), KeyOf(s.entries[m]))
    requires pos >= 0 ==> !Before(InternalKey(bound, MAX_SEQUENCE, SEEK_CODE), KeyOf(s.entries[pos]))
    ensures BackFrontier(s, pos, bound - 1)
  {
    assert forall m | pos < m < |s.entries| :: bound <= s.entries[m].key;
  }

  lemma StartsAtLast(s: Snapshot, hi: UserKey)
    requires WellFormed(s) && (|s.entries| > 0 ==> hi == s.entries[|s.entries| - 1].key)
    ensures BackFrontier(s, |s.entries| - 1, hi)
  {
  }
}
