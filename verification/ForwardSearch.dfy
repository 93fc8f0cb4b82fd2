/** What the forward search for the next key to yield knows between two steps, and why each step keeps it. */
module ForwardSearch {
  import opened SnapshotView

  /** The internal iterator is at `pos`, looking for the first yielding key at or after `lo`. When `skipping`,
      the versions of `saved` (and of nothing later) are still to be passed over; otherwise no visible version
      of the key at `pos` has been passed. `zero` says the entry just passed had sequence number 0. */
  ghost predicate Frontier(s: Snapshot, pos: int, zero: bool, saved: UserKey, skipping: bool, lo: UserKey) {
    && WellFormed(s) && 0 <= pos <= |s.entries|
    && (forall m | 0 <= m < pos ::
          lo <= s.entries[m].key && Visible(s, s.entries[m]) ==> !Yields(s, s.entries[m].key))
    && (zero ==> 0 < pos && s.entries[pos - 1].seqno == 0 && (skipping ==> s.entries[pos - 1].key == saved))
    && if skipping then
         && lo <= saved + 1
         && (lo <= saved ==> !Yields(s, saved))
         && (forall m | 0 <= m < pos :: s.entries[m].key <= saved)
         && (forall m | pos <= m < |s.entries| :: saved <= s.entries[m].key)
       else
         && (forall m | pos <= m < |s.entries| :: lo <= s.entries[m].key)
         && (pos < |s.entries| ==>
               forall m | 0 <= m < pos :: s.entries[m].key == s.entries[pos].key ==> !Visible(s, s.entries[m]))
  }

  /** The sequence-zero shortcut: after an entry with sequence number 0 no comparison with the saved key is
      needed, because the current entry belongs to a later key. */
  lemma SequenceZeroShortcut(s: Snapshot, pos: int, saved: UserKey, lo: UserKey)
    requires Frontier(s, pos, true, saved, true, lo) && pos < |s.entries|
    ensures saved < s.entries[pos].key
  {
    assert s.entries[pos - 1].key < s.entries[pos].key;
  }

  /** No key between `lo` and the current entry yields; at the end of the run, no key from `lo` on does. */
  lemma NothingPassedOver(s: Snapshot, pos: int, zero: bool, saved: UserKey, skipping: bool, lo: UserKey)
    requires Frontier(s, pos, zero, saved, skipping, lo)
    ensures pos < |s.entries| ==> forall k | lo <= k < s.entries[pos].key :: !Yields(s, k)
    ensures pos == |s.entries| ==> forall k | lo <= k :: !Yields(s, k)
  {
    forall k | lo <= k && (pos < |s.entries| ==> k < s.entries[pos].key)
      ensures !Yields(s, k)
    {
      if Yields(s, k) {
        var m := YieldsHasEntry(s, k);
        assert false;
      }
    }
  }

  /** A visible entry that is not skipped is the newest visible version of its key, which is at or after `lo`. */
  lemma ReachesNewestVersion(s: Snapshot, pos: int, zero: bool, saved: UserKey, skipping: bool, lo: UserKey)
    requires Frontier(s, pos, zero, saved, skipping, lo) && pos < |s.entries|
    requires Visible(s, s.entries[pos]) && (skipping ==> saved < s.entries[pos].key)
    ensures NewestVisible(s, pos, s.entries[pos].key)
    ensures lo <= s.entries[pos].key
  {
  }

  /** Passing a version of a key that is being skipped. */
  lemma SkipVersion(s: Snapshot, pos: int, zero: bool, saved: UserKey, lo: UserKey)
    requires Frontier(s, pos, zero, saved, true, lo) && pos < |s.entries|
    requires s.entries[pos].key <= saved
    ensures Frontier(s, pos + 1, s.entries[pos].seqno == 0, saved, true, lo)
  {
  }

  /** Passing the newest visible version of a key that reads as deleted: the rest of the key is skipped. */
  lemma SkipDeletedKey(s: Snapshot, pos: int, zero: bool, saved: UserKey, skipping: bool, lo: UserKey)
    requires Frontier(s, pos, zero, saved, skipping, lo) && pos < |s.entries|
    requires Visible(s, s.entries[pos]) && (skipping ==> saved < s.entries[pos].key)
    requires s.entries[pos].kind.IsDeletion() || Covered(s, s.entries[pos])
    ensures Frontier(s, pos + 1, s.entries[pos].seqno == 0, s.entries[pos].key, true, lo)
  {
    NewestVisibleDecides(s, pos, s.entries[pos].key);
  }

  /** Passing an entry written after the snapshot, which is no reason to skip its key. */
  lemma PassInvisible(s: Snapshot, pos: int, zero: bool, saved: UserKey, skipping: bool, lo: UserKey)
    requires Frontier(s, pos, zero, saved, skipping, lo) && pos < |s.entries|
    requires !Visible(s, s.entries[pos]) && (skipping ==> saved < s.entries[pos].key)
    ensures Frontier(s, pos + 1, s.entries[pos].seqno == 0, s.entries[pos].key, false, lo)
    ensures !skipping ==> Frontier(s, pos + 1, s.entries[pos].seqno == 0, saved, false, lo)
  {
  }

  /** Reseeking past all versions of the skipped key passes over nothing else. */
  lemma ReseekPastKey(s: Snapshot, pos: int, zero: bool, saved: UserKey, lo: UserKey, pos': int)
    requires Frontier(s, pos, zero, saved, true, lo)
    requires pos <= pos' <= |s.entries|
    requires forall m | 0 <= m < pos' :: Before(KeyOf(s.entries[m]), InternalKey(saved, 0, Deletion.Code()))
    ensures Frontier(s, pos', false, saved, true, lo)
  {
  }

  /** Reseeking to the snapshot's sequence number passes over invisible versions of the key only. */
  lemma ReseekToSnapshot(s: Snapshot, pos: int, zero: bool, saved: UserKey, lo: UserKey, pos': int)
    requires Frontier(s, pos, zero, saved, false, lo) && pos < |s.entries| && s.entries[pos].key == saved
    requires pos <= pos' <= |s.entries|
    requires forall m | 0 <= m < pos' :: Before(KeyOf(s.entries[m]), InternalKey(saved, s.sequence, SEEK_CODE))
    ensures Frontier(s, pos', false, saved, false, lo)
  {
  }

  // ----- Where a search starts -----

  /** The internal iterator is on the put that yields the value of `k`. */
  ghost predicate OnPut(s: Snapshot, pos: int, zero: bool, k: UserKey) {
    && pos >= 0 && NewestVisible(s, pos, k)
    && s.entries[pos].kind.Put? && !Covered(s, s.entries[pos])
    && (zero ==> s.entries[pos].seqno == 0)
  }

  /** The internal iterator is just after the last entry that contributed to the merged value of `k`. */
  ghost predicate PastMerge(s: Snapshot, pos: int, zero: bool, k: UserKey) {
    && (exists p: nat :: NewestVisible(s, p, k) && s.entries[p].kind.Merge? && pos == MergeEnd(s, p + 1, k))
    && (zero ==> 0 < pos <= |s.entries| && s.entries[pos - 1].seqno == 0)
  }

  /** From a yielding entry: what is still to come is the rest of its key and later keys. */
  lemma StartsAfterPut(s: Snapshot, pos: int, zero: bool, k: UserKey)
    requires WellFormed(s) && OnPut(s, pos, zero, k)
    ensures Frontier(s, pos + 1, zero, k, true, k + 1)
  {
    StartsAfterVersion(s, pos + 1, zero, k);
  }

  /** From the entry after a merge. */
  lemma StartsAfterMerge(s: Snapshot, pos: int, zero: bool, k: UserKey)
    requires WellFormed(s) && PastMerge(s, pos, zero, k)
    ensures Frontier(s, pos, zero, k, true, k + 1)
  {
    var p: nat :| NewestVisible(s, p, k) && pos == MergeEnd(s, p + 1, k);
    MergeEndStaysInKey(s, p + 1, k);
    StartsAfterVersion(s, pos, zero, k);
  }

  lemma StartsAfterVersion(s: Snapshot, pos: int, zero: bool, k: UserKey)
    requires WellFormed(s) && 0 < pos <= |s.entries| && s.entries[pos - 1].key == k
    requires zero ==> s.entries[pos - 1].seqno == 0
    ensures Frontier(s, pos, zero, k, true, k + 1)
  {
  }

  /** From the first entry of the current key, which is where a change of direction ends up. */
  lemma StartsAtFirstEntry(s: Snapshot, pos: int, k: UserKey)
    requires WellFormed(s) && 0 <= pos < |s.entries| && s.entries[pos].key == k
    requires forall m | 0 <= m < pos :: s.entries[m].key < k
    ensures Frontier(s, pos, false, k, true, k + 1)
  {
  }

  /** From the first entry at or after a seek target. */
  lemma StartsAtSeek(s: Snapshot, pos: int, k: UserKey)
    requires WellFormed(s) && 0 <= pos <= |s.entries|
    requires forall m | 0 <= m < pos :: Before(KeyOf(s.entries[m]), InternalKey(k, s.sequence, SEEK_CODE))
    requires pos < |s.entries| ==> !Before(KeyOf(s.entries[pos]), InternalKey(k, s.sequence, SEEK_CODE))
    ensures Frontier(s, pos, false, k, false, k)
  {
  }

  lemma StartsAtFirst(s: Snapshot)
    requires WellFormed(s) && |s.entries| > 0
    ensures Frontier(s, 0, false, s.entries[0].key, false, s.entries[0].key)
  {
  }
}
