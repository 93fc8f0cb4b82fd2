/** The user-facing iterator: turns a run of internal entries into the key/value pairs one snapshot sees, in
    both directions. Every public operation is proved to move a cursor on `SnapshotView.View`. */
module DbIters {
  import opened Wrappers
  import opened SequenceNumbers
  import opened Sequences
  import opened SnapshotView
  import opened InternalIterators
  import opened MergeContexts
  import opened ForwardSearch
  import opened BackwardSearch
  import Cursors

  datatype Status = Ok | Corruption
  datatype Direction = Forward | Reverse

  class DBIter {
    const s: Snapshot
    const maxSkip: nat
    const iter: InternalIterator
    const mergeContext: MergeContext

    var status: Status
    var direction: Direction
    var valid: bool
    var currentEntryIsMerged: bool
    var isKeySeqnumZero: bool
    var savedKey: UserKey
    var savedValue: Value
    var pinnedValue: Option<Value>

    // ----- Invariant -----

    ghost predicate Ready()
      reads this, iter
    {
      WellFormed(s) && iter.entries == s.entries && iter.InRange()
    }

    /** (1a) Moving forward without a merge: the internal iterator is on the entry that yields the value. */
    ghost predicate OnYieldingEntry()
      reads this, iter
    {
      OnPut(s, iter.pos, isKeySeqnumZero, savedKey)
    }

    /** (1b) Moving forward after a merge: it is just after the last entry that contributed to the value. */
    ghost predicate AfterMerge()
      reads this, iter
    {
      PastMerge(s, iter.pos, isKeySeqnumZero, savedKey)
    }

    /** (2) Moving backward: it is just before all entries of the current key. */
    ghost predicate BeforeAllVersions()
      reads this, iter
    {
      JustBefore(s, iter.pos, savedKey)
    }

    ghost predicate Positioned()
      reads this, iter
    {
      if direction == Reverse then BeforeAllVersions()
      else if currentEntryIsMerged then AfterMerge()
      else OnYieldingEntry()
    }

    function MergedValue(): Value
      reads this
    {
      if pinnedValue.Some? then pinnedValue.value else savedValue
    }

    /** value(): which buffer holds the value depends on how it was found. */
    function CurrentValue(): Value
      reads this, iter
    {
      if currentEntryIsMerged then MergedValue()
      else if direction == Reverse then (if pinnedValue.Some? then pinnedValue.value else [])
      else if iter.Valid() then iter.entries[iter.pos].value
      else []
    }

    ghost predicate Presents()
      reads this, iter
    {
      && Yields(s, savedKey)
      && Get(s, savedKey) == Found(CurrentValue())
    }

    ghost predicate Inv()
      reads this, iter
    {
      && Ready()
      && (valid ==> status.Ok? && Presents() && Positioned())
    }

    constructor (s: Snapshot, iter: InternalIterator, maxSkip: nat)
      requires WellFormed(s) && iter.entries == s.entries && iter.InRange()
      ensures Inv() && this.s == s && this.iter == iter && this.maxSkip == maxSkip && fresh(mergeContext)
      ensures !valid && status.Ok?
    {
      this.s := s;
      this.iter := iter;
      this.maxSkip := maxSkip;
      mergeContext := new MergeContext();
      status, direction, valid := Ok, Forward, false;
      currentEntryIsMerged, isKeySeqnumZero := false, false;
      savedKey, savedValue, pinnedValue := 0, [], None;
    }

    // ----- Where an operation lands -----

    ghost predicate NoneIn(lo: UserKey, hi: UserKey)
      reads this
    {
      forall k | lo <= k < hi :: !Yields(s, k)
    }

    /** The iterator is on the first yielding key at or after `lo`. */
    ghost predicate LandedForward(lo: UserKey)
      reads this, iter
    {
      && Inv()
      && (valid ==> lo <= savedKey && NoneIn(lo, savedKey) && direction == Forward)
      && (!valid && status.Ok? ==> forall k | lo <= k :: !Yields(s, k))
      && (status.Corruption? ==>
            !valid && lo <= savedKey && NoneIn(lo, savedKey) && Yields(s, savedKey) && Get(s, savedKey) == Failed)
    }

    /** The iterator is on the last yielding key at or before `hi`. */
    ghost predicate LandedBackward(hi: UserKey)
      reads this, iter
    {
      && Inv()
      && (valid ==> savedKey <= hi && NoneIn(savedKey + 1, hi + 1) && direction == Reverse)
      && (!valid && status.Ok? ==> forall k | k <= hi :: !Yields(s, k))
      && (status.Corruption? ==>
            !valid && savedKey <= hi && NoneIn(savedKey + 1, hi + 1) && Yields(s, savedKey)
                && Get(s, savedKey) == Failed)
    }

    // ----- Merging -----

    /** Runs the merge operator and leaves its result where `MergedValue` finds it. */
    method TimedFullMerge(key: UserKey, base: Option<Value>, operands: seq<Value>) returns (ok: bool)
      modifies this`savedValue, this`pinnedValue
      ensures match s.mergeOperator(key, base, operands)
              case MergeFailed => !ok
              case NewValue(v) => ok && MergedValue() == v
              case ExistingOperand(v) => ok && MergedValue() == v
    {
      match s.mergeOperator(key, base, operands)
      case MergeFailed =>
        pinnedValue := None;
        ok := false;
      case NewValue(v) =>
        savedValue := v;
        pinnedValue := None;
        ok := true;
      case ExistingOperand(v) =>
        pinnedValue := Some(v);
        ok := true;
    }

    /** Runs a merge for the current key; a failed merge invalidates the iterator. */
    method MergeCurrentKey(base: Option<Value>) returns (ok: bool)
      requires status.Ok?
      modifies this`status, this`valid, this`savedValue, this`pinnedValue, mergeContext
      ensures Finish(s, savedKey, Merged(base, old(mergeContext.Operands())))
              == if ok then Found(MergedValue()) else Failed
      ensures valid == ok && status == (if ok then Ok else Corruption)
    {
      var operands := mergeContext.GetOperands();
      ok := TimedFullMerge(savedKey, base, operands);
      valid, status := ok, if ok then Ok else Corruption;
    }

    // ----- Moving forward -----

    method MergeValuesNewToOld() returns (ok: bool)
      requires Ready() && valid && status.Ok?
      requires iter.pos >= 0 && NewestVisible(s, iter.pos, savedKey)
      requires s.entries[iter.pos].kind.Merge? && !Covered(s, s.entries[iter.pos])
      modifies this`status, this`valid, this`savedValue, this`pinnedValue, iter, mergeContext
      ensures Ready() && valid == ok && status == (if ok then Ok else Corruption)
      ensures Get(s, savedKey) == if ok then Found(MergedValue()) else Failed
      ensures iter.pos == MergeEnd(s, old(iter.pos) + 1, savedKey)
    {
      hide Collected, MergeEnd, WellFormed, Get, Finish, Covered;
      ghost var p := iter.pos;
      mergeContext.Clear();
      mergeContext.PushOperand(iter.entries[iter.pos].value);
      FirstOperand(s, p, savedKey);
      assert mergeContext.Operands() == [s.entries[p].value];
      ghost var ended := false;
      iter.Next();
      while iter.Valid()
        invariant Ready() && p < iter.pos && valid && status.Ok? && !ended
        invariant Collected(s, p, iter.pos, savedKey, mergeContext.Operands())
        decreases |s.entries| - iter.pos
      {
        var ikey := iter.entries[iter.pos];
        if ikey.key != savedKey {
          break;
        }
        if ikey.kind.IsDeletion() || Covered(s, ikey) {
          NothingEndsMerge(s, p, iter.pos, savedKey, mergeContext.Operands());
          ended := true;
          iter.Next();
          break;
        }
        if ikey.kind.Put? {
          PutEndsMerge(s, p, iter.pos, savedKey, mergeContext.Operands());
          ok := MergeCurrentKey(Some(ikey.value));
          iter.Next();
          return;
        }
        NextOperand(s, p, iter.pos, savedKey, mergeContext.Operands());
        mergeContext.PushOperand(ikey.value);
        iter.Next();
      }
      if !ended {
        NothingEndsMerge(s, p, iter.pos, savedKey, mergeContext.Operands());
      }
      ok := MergeCurrentKey(None);
    }

    /** The current entry is the newest visible version of a key that is neither deleted nor out of bounds. */
    method YieldEntry(ghost lo: UserKey) returns (ok: bool)
      requires Ready() && status.Ok? && iter.Valid() && direction == Forward && !currentEntryIsMerged
      requires var e := s.entries[iter.pos];
               && NewestVisible(s, iter.pos, e.key) && !e.kind.IsDeletion() && !Covered(s, e)
               && InBounds(s, e.key) && lo <= e.key && NoneIn(lo, e.key)
               && isKeySeqnumZero == (e.seqno == 0)
      modifies this, iter, mergeContext
      ensures ok == status.Ok? && LandedForward(lo)
    {
      hide Get, WellFormed;
      var ikey := iter.entries[iter.pos];
      NewestDecidesAlone(s, iter.pos, ikey.key);
      savedKey := ikey.key;
      valid := true;
      if ikey.kind.Put? {
        return true;
      }
      currentEntryIsMerged := true;
      ghost var p := iter.pos;
      MergeEndAfterSequenceZero(s, p);
      ok := MergeValuesNewToOld();
    }

    /** Jumps over the remaining versions of the saved key, or over those newer than the snapshot. */
    method Reseek(skipping: bool, ghost zero: bool, ghost lo: UserKey)
      requires Ready() && iter.Valid()
      requires Frontier(s, iter.pos, zero, savedKey, skipping, lo)
      requires if skipping then s.entries[iter.pos].key <= savedKey
               else s.entries[iter.pos].key == savedKey && !Visible(s, s.entries[iter.pos])
      modifies this`isKeySeqnumZero, iter
      ensures Ready() && old(iter.pos) <= iter.pos
      ensures Frontier(s, iter.pos, isKeySeqnumZero, savedKey, skipping, lo)
    {
      ghost var from := iter.pos;
      isKeySeqnumZero := false;
      if skipping {
        iter.Seek(InternalKey(savedKey, 0, Deletion.Code()));
        ReseekPastKey(s, from, zero, savedKey, lo, iter.pos);
      } else {
        iter.Seek(InternalKey(savedKey, s.sequence, SEEK_CODE));
        ReseekToSnapshot(s, from, zero, savedKey, lo, iter.pos);
      }
    }

    /** Leaves an entry that did not yield, one step at a time or with a reseek. */
    method LeaveEntry(reseek: bool, skipping: bool, ghost zero: bool, ghost lo: UserKey)
      requires Ready() && iter.Valid()
      requires Frontier(s, iter.pos + 1, isKeySeqnumZero, savedKey, skipping, lo)
      requires reseek ==> Frontier(s, iter.pos, zero, savedKey, skipping, lo)
      requires reseek ==>
                 if skipping then s.entries[iter.pos].key <= savedKey
                 else s.entries[iter.pos].key == savedKey && !Visible(s, s.entries[iter.pos])
      modifies this`isKeySeqnumZero, iter
      ensures Ready() && old(iter.pos) <= iter.pos && (!reseek ==> old(iter.pos) < iter.pos)
      ensures Frontier(s, iter.pos, isKeySeqnumZero, savedKey, skipping, lo)
    {
      if reseek {
        Reseek(skipping, zero, lo);
      } else {
        iter.Next();
      }
    }

    /** Decides what to do with the current entry: it found, or it is passed over. Passing it either counts as
        one more skipped version of the saved key, or starts on a new saved key. */
    method ExamineEntry(skippingSavedKey: bool, isPrevKeySeqnumZero: bool, ghost lo: UserKey)
      returns (found: bool, skipping: bool, counted: bool)
      requires iter.entries == s.entries && iter.Valid()
      requires Frontier(s, iter.pos, isPrevKeySeqnumZero, savedKey, skippingSavedKey, lo)
      modifies this`savedKey
      ensures var e := s.entries[iter.pos];
              if found then
                && lo <= e.key && NoneIn(lo, e.key)
                && NewestVisible(s, iter.pos, e.key) && !e.kind.IsDeletion() && !Covered(s, e)
              else
                && Frontier(s, iter.pos + 1, e.seqno == 0, savedKey, skipping, lo)
                && (counted ==> Frontier(s, iter.pos, isPrevKeySeqnumZero, savedKey, skipping, lo))
                && (counted && skipping ==> e.key <= savedKey)
                && (counted && !skipping ==> e.key == savedKey && !Visible(s, e))
    {
      var ikey := iter.entries[iter.pos];
      found, skipping, counted := false, skippingSavedKey, false;
      if Visible(s, ikey) {
        if skipping && isPrevKeySeqnumZero {
          SequenceZeroShortcut(s, iter.pos, savedKey, lo);
        }
        if !isPrevKeySeqnumZero && skipping && ikey.key <= savedKey {
          SkipVersion(s, iter.pos, isPrevKeySeqnumZero, savedKey, lo);
          counted := true;
        } else {
          assert !skipping || ikey.key > savedKey;
          if ikey.kind.IsDeletion() || Covered(s, ikey) {
            SkipDeletedKey(s, iter.pos, isPrevKeySeqnumZero, savedKey, skipping, lo);
            savedKey := ikey.key;
            skipping := true;
          } else {
            NothingPassedOver(s, iter.pos, isPrevKeySeqnumZero, savedKey, skipping, lo);
            ReachesNewestVersion(s, iter.pos, isPrevKeySeqnumZero, savedKey, skipping, lo);
            found := true;
          }
        }
      } else if ikey.key == savedKey || (skipping && ikey.key < savedKey) {
        if skipping {
          SkipVersion(s, iter.pos, isPrevKeySeqnumZero, savedKey, lo);
        } else {
          PassInvisible(s, iter.pos, isPrevKeySeqnumZero, savedKey, skipping, lo);
        }
        counted := true;
      } else {
        PassInvisible(s, iter.pos, isPrevKeySeqnumZero, savedKey, skipping, lo);
        savedKey := ikey.key;
        skipping := false;
      }
    }

    /** There is nothing to yield: the run is over or the upper bound is reached. */
    method StopForward(skipping: bool, zero: bool, ghost lo: UserKey) returns (ok: bool)
      requires Ready() && status.Ok? && Frontier(s, iter.pos, zero, savedKey, skipping, lo)
      requires iter.Valid() ==> s.upperBound.Some? && s.upperBound.value <= s.entries[iter.pos].key
      modifies this`valid
      ensures ok == status.Ok? && LandedForward(lo)
    {
      NothingPassedOver(s, iter.pos, zero, savedKey, skipping, lo);
      valid := false;
      return true;
    }

    /** Finds the first key to yield at or after `lo`, starting from what `Frontier` says. */
    method FindNextUserEntryInternal(skippingSavedKey: bool, ghost lo: UserKey) returns (ok: bool)
      requires Ready() && status.Ok? && iter.Valid() && direction == Forward
      requires s.lowerBound.Some? ==> s.lowerBound.value <= lo
      requires Frontier(s, iter.pos, isKeySeqnumZero, savedKey, skippingSavedKey, lo)
      modifies this, iter, mergeContext
      ensures ok == status.Ok? && LandedForward(lo)
    {
      hide Frontier, LandedForward, WellFormed, Yields;
      var skipping := skippingSavedKey;
      var numSkipped: nat := 0;
      var reseekDone := false;
      currentEntryIsMerged := false;
      while iter.Valid()
        invariant Ready() && status.Ok? && direction == Forward && !currentEntryIsMerged
        invariant Frontier(s, iter.pos, isKeySeqnumZero, savedKey, skipping, lo)
        decreases |s.entries| - iter.pos, if reseekDone then 0 else 1
      {
        var ikey := iter.entries[iter.pos];
        var isPrevKeySeqnumZero := isKeySeqnumZero;
        isKeySeqnumZero := ikey.seqno == 0;
        if s.upperBound.Some? && s.upperBound.value <= ikey.key {
          ok := StopForward(skipping, isPrevKeySeqnumZero, lo);
          return;
        }
        var found, counted;
        found, skipping, counted := ExamineEntry(skipping, isPrevKeySeqnumZero, lo);
        if found {
          ok := YieldEntry(lo);
          return;
        }
        if counted {
          numSkipped := numSkipped + 1;
        } else {
          numSkipped, reseekDone := 0, false;
        }
        var reseek := numSkipped > maxSkip && !reseekDone;
        if reseek {
          numSkipped, reseekDone := 0, true;
        }
        LeaveEntry(reseek, skipping, isPrevKeySeqnumZero, lo);
      }
      ok := StopForward(skipping, isKeySeqnumZero, lo);
    }

    // ----- Moving backward -----

    /** What the scan of the current key found: its value, its absence, or a failed merge. */
    ghost predicate KeyResolved(ok: bool)
      reads this, iter
    {
      && status == (if ok then Ok else Corruption)
      && (ok && valid ==> Get(s, savedKey) == Found(CurrentValue()))
      && (ok && !valid ==> Get(s, savedKey) == Absent)
      && (!ok ==> !valid && Get(s, savedKey) == Failed)
    }

    /** Adds the entry under the internal iterator to the summary of the older versions. */
    method ReadVersionBackward(olderKind: ValueType, olderNotMergeKind: ValueType)
      returns (lastKind: ValueType, lastNotMergeKind: ValueType)
      requires iter.entries == s.entries && iter.Valid()
      requires Visible(s, s.entries[iter.pos])
      requires Summarizes(Replay(s, iter.pos + 1, s.entries[iter.pos].key),
                          olderKind, olderNotMergeKind, pinnedValue, mergeContext.Operands())
      modifies this`pinnedValue, mergeContext
      ensures Summarizes(Replay(s, iter.pos, s.entries[iter.pos].key),
                         lastKind, lastNotMergeKind, pinnedValue, mergeContext.Operands())
    {
      var ikey := iter.entries[iter.pos];
      ReadVersion(s, iter.pos, olderKind, olderNotMergeKind, pinnedValue, mergeContext.Operands());
      lastKind, lastNotMergeKind := ikey.kind, olderNotMergeKind;
      match ikey.kind
      case Put =>
        if Covered(s, ikey) {
          lastKind := RangeDeletion;
        } else {
          pinnedValue := Some(ikey.value);
        }
        mergeContext.Clear();
        lastNotMergeKind := lastKind;
      case Merge =>
        if Covered(s, ikey) {
          mergeContext.Clear();
          lastKind := RangeDeletion;
          lastNotMergeKind := lastKind;
        } else {
          mergeContext.PushOperandBack(ikey.value);
        }
      case _ =>
        mergeContext.Clear();
        lastNotMergeKind := lastKind;
    }

    /** Turns the summary of all versions of the current key into its value. */
    method ResolveKeyBackward(lastKind: ValueType, lastNotMergeKind: ValueType, ghost st: KeyState) returns (ok: bool)
      requires status.Ok? && direction == Reverse && !currentEntryIsMerged
      requires Get(s, savedKey) == Finish(s, savedKey, st)
      requires Summarizes(st, lastKind, lastNotMergeKind, pinnedValue, mergeContext.Operands())
      modifies this`status, this`valid, this`currentEntryIsMerged, this`savedValue, this`pinnedValue, mergeContext
      ensures KeyResolved(ok)
    {
      match lastKind
      case Merge =>
        currentEntryIsMerged := true;
        ok := MergeCurrentKey(if lastNotMergeKind.Put? then pinnedValue else None);
      case Put =>
        valid, ok := true, true;
      case _ =>
        valid, ok := false, true;
    }

    /** Reads the versions of the current key from oldest to newest, unless there are more than `maxSkip`. */
    method ReadVersions() returns (lastKind: ValueType, lastNotMergeKind: ValueType, tooMany: bool)
      requires Ready() && iter.Valid() && s.entries[iter.pos].key == savedKey
      requires forall m | iter.pos < m < |s.entries| :: savedKey < s.entries[m].key
      modifies this`pinnedValue, iter, mergeContext
      ensures Ready() && Scanning(s, iter.pos, savedKey)
      ensures if tooMany then iter.Valid() && s.entries[iter.pos].key == savedKey && Visible(s, s.entries[iter.pos])
              else
                && (iter.Valid() ==> s.entries[iter.pos].key != savedKey || !Visible(s, s.entries[iter.pos]))
                && Summarizes(Replay(s, iter.pos + 1, savedKey),
                              lastKind, lastNotMergeKind, pinnedValue, mergeContext.Operands())
    {
      hide Scanning, Replay, WellFormed;
      mergeContext.Clear();
      lastNotMergeKind, lastKind, tooMany := Deletion, Deletion, false;
      var numSkipped: nat := 0;
      ScanStarts(s, iter.pos, savedKey);
      while iter.Valid() && Visible(s, iter.entries[iter.pos]) && iter.entries[iter.pos].key == savedKey
        invariant Ready() && Scanning(s, iter.pos, savedKey)
        invariant Summarizes(Replay(s, iter.pos + 1, savedKey),
                             lastKind, lastNotMergeKind, pinnedValue, mergeContext.Operands())
        decreases iter.pos
      {
        if numSkipped >= maxSkip {
          tooMany := true;
          return;
        }
        ScanContinues(s, iter.pos, savedKey);
        lastKind, lastNotMergeKind := ReadVersionBackward(lastKind, lastNotMergeKind);
        iter.Prev();
        numSkipped := numSkipped + 1;
      }
    }

    /** Finds the value of the current key, starting from its oldest version. */
    method FindValueForCurrentKey() returns (ok: bool)
      requires Ready() && status.Ok? && direction == Reverse
      requires iter.Valid() && s.entries[iter.pos].key == savedKey
      requires forall m | iter.pos < m < |s.entries| :: savedKey < s.entries[m].key
      modifies this`status, this`valid, this`currentEntryIsMerged, this`savedValue, this`pinnedValue, iter, mergeContext
      ensures Ready() && KeyResolved(ok) && (ok ==> Near(s, iter.pos, savedKey))
    {
      currentEntryIsMerged := false;
      var lastKind, lastNotMergeKind, tooMany := ReadVersions();
      if tooMany {
        ok := FindValueForCurrentKeyUsingSeek();
      } else {
        AllVersionsRead(s, iter.pos, savedKey);
        ok := ResolveKeyBackward(lastKind, lastNotMergeKind, Replay(s, iter.pos + 1, savedKey));
      }
    }

    /** Seeks to the newest visible version of the current key and reads on from new to old. */
    method FindValueForCurrentKeyUsingSeek() returns (ok: bool)
      requires Ready() && status.Ok? && direction == Reverse && !currentEntryIsMerged
      requires iter.Valid() && s.entries[iter.pos].key == savedKey && Visible(s, s.entries[iter.pos])
      modifies this`status, this`valid, this`currentEntryIsMerged, this`savedValue, this`pinnedValue, iter, mergeContext
      ensures Ready() && KeyResolved(ok) && (ok ==> Near(s, iter.pos, savedKey))
    {
      ghost var m := iter.pos;
      SeekToNewestVisible(m);
      var ikey := iter.entries[iter.pos];
      NewestVisibleDecides(s, iter.pos, savedKey);
      if ikey.kind.IsDeletion() || Covered(s, ikey) {
        valid := false;
        return true;
      }
      if ikey.kind.Put? {
        pinnedValue := Some(ikey.value);
        valid := true;
        return true;
      }
      currentEntryIsMerged := true;
      ok := MergeOlderOperands();
      if ok && !iter.Valid() {
        SeekToNewestVisible(m);
      }
    }

    method SeekToNewestVisible(ghost m: nat)
      requires Ready() && m < |s.entries| && s.entries[m].key == savedKey && Visible(s, s.entries[m])
      modifies iter
      ensures Ready() && iter.Valid() && NewestVisible(s, iter.pos, savedKey)
    {
      iter.Seek(InternalKey(savedKey, s.sequence, SEEK_CODE));
    }

    /** Collects the operands from the newest one on towards older ones and merges them. */
    method MergeOlderOperands() returns (ok: bool)
      requires Ready() && status.Ok? && iter.Valid() && NewestVisible(s, iter.pos, savedKey)
      requires s.entries[iter.pos].kind.Merge? && !Covered(s, s.entries[iter.pos])
      modifies this`status, this`valid, this`savedValue, this`pinnedValue, iter, mergeContext
      ensures Ready() && valid == ok && status == (if ok then Ok else Corruption) && old(iter.pos) < iter.pos
      ensures Get(s, savedKey) == if ok then Found(MergedValue()) else Failed
    {
      hide Collected, MergeEnd, WellFormed, NewestVisible, Get, Finish, Covered;
      ghost var p := iter.pos;
      mergeContext.Clear();
      mergeContext.PushOperand(iter.entries[iter.pos].value);
      FirstOperand(s, p, savedKey);
      assert mergeContext.Operands() == [s.entries[p].value];
      var base: Option<Value> := None;
      iter.Next();
      while iter.Valid()
        invariant Ready() && p < iter.pos && status.Ok? && base.None?
        invariant Collected(s, p, iter.pos, savedKey, mergeContext.Operands())
        decreases |s.entries| - iter.pos
      {
        var ikey := iter.entries[iter.pos];
        if ikey.key != savedKey || ikey.kind.IsDeletion() || Covered(s, ikey) {
          break;
        }
        if ikey.kind.Put? {
          PutEndsMerge(s, p, iter.pos, savedKey, mergeContext.Operands());
          base := Some(ikey.value);
          break;
        }
        NextOperand(s, p, iter.pos, savedKey, mergeContext.Operands());
        mergeContext.PushOperand(ikey.value);
        iter.Next();
      }
      if base.None? {
        NothingEndsMerge(s, p, iter.pos, savedKey, mergeContext.Operands());
      }
      ok := MergeCurrentKey(base);
    }

    /** Moves to the last entry of the key before the saved key. */
    method FindUserKeyBeforeSavedKey()
      requires Ready() && Near(s, iter.pos, savedKey) && HasKey(s, savedKey)
      modifies iter
      ensures Ready() && JustBefore(s, iter.pos, savedKey)
    {
      var numSkipped: nat := 0;
      while iter.Valid() && savedKey <= iter.entries[iter.pos].key
        invariant Ready() && Near(s, iter.pos, savedKey)
        decreases iter.pos
      {
        if numSkipped >= maxSkip {
          numSkipped := 0;
          iter.Seek(InternalKey(savedKey, MAX_SEQUENCE, SEEK_CODE));
        } else {
          numSkipped := numSkipped + 1;
        }
        iter.Prev();
      }
    }

    /** Finds the last key to yield at or before `hi`, starting from what `BackFrontier` says. */
    method PrevInternal(ghost hi: UserKey)
      requires Ready() && status.Ok? && direction == Reverse
      requires iter.pos < |s.entries| && BackFrontier(s, iter.pos, hi)
      requires s.upperBound.Some? ==> hi < s.upperBound.value
      modifies this, iter, mergeContext
      ensures LandedBackward(hi)
    {
      hide BackFrontier, WellFormed, Scanning;
      while iter.Valid()
        invariant Ready() && status.Ok? && direction == Reverse
        invariant BackFrontier(s, iter.pos, hi)
        decreases iter.pos
      {
        ghost var from := iter.pos;
        savedKey := iter.entries[iter.pos].key;
        LastOfItsKey(s, iter.pos, hi);
        NothingPassedOverBackward(s, iter.pos, hi);
        if s.lowerBound.Some? && savedKey < s.lowerBound.value {
          valid := false;
          return;
        }
        var ok := FindValueForCurrentKey();
        if !ok {
          return;
        }
        FindUserKeyBeforeSavedKey();
        if valid {
          return;
        }
        PassKeyBackward(s, from, hi, iter.pos);
      }
      NothingPassedOverBackward(s, iter.pos, hi);
      valid := false;
    }

    // ----- Changing direction -----

    /** Brings the internal iterator from before the current key to its first entry. */
    method ReverseToForward()
      requires Ready() && BeforeAllVersions()
      modifies iter, this`direction
      ensures Ready() && direction == Forward && 0 <= iter.pos < |s.entries|
      ensures s.entries[iter.pos].key == savedKey
      ensures forall m | 0 <= m < iter.pos :: s.entries[m].key < savedKey
    {
      ghost var first := iter.pos + 1;
      if !iter.Valid() {
        iter.Seek(InternalKey(savedKey, MAX_SEQUENCE, SEEK_CODE));
      }
      direction := Forward;
      while iter.Valid() && iter.entries[iter.pos].key < savedKey
        invariant Ready() && direction == Forward && 0 <= iter.pos <= first
        invariant forall m | 0 <= m < iter.pos :: s.entries[m].key < savedKey
        decreases |s.entries| - iter.pos
      {
        iter.Next();
      }
    }

    /** Brings the internal iterator from the current key, or after it, to before all its entries. */
    method ReverseToBackward()
      requires Ready() && Positioned() && direction == Forward
      modifies iter, this`direction
      ensures Ready() && direction == Reverse && BeforeAllVersions()
    {
      if currentEntryIsMerged && !iter.Valid() {
        iter.Seek(InternalKey(savedKey, MAX_SEQUENCE, SEEK_CODE));
      }
      direction := Reverse;
      FindUserKeyBeforeSavedKey();
    }

    // ----- The public operations, as moves of a cursor on the view -----

    ghost predicate Shows(c: Cursors.Cursor)
      reads this, iter
    {
      match c
      case Off => !valid && status.Ok?
      case Broken => !valid && status.Corruption?
      case On(i) => valid && i < |View(s)| && View(s)[i] == Item(savedKey, Found(CurrentValue()))
    }

    /** The index of the current key in the view. */
    ghost function Index(): nat
      reads this
    {
      Cursors.CountBelow(View(s), savedKey)
    }

    lemma ShowsIndex()
      requires Inv() && valid
      ensures Shows(Cursors.On(Index()))
    {
      Cursors.IndexOfKey(s, savedKey);
    }

    lemma LandedForwardShows(lo: UserKey)
      requires LandedForward(lo)
      ensures Shows(Cursors.SeekTo(View(s), lo))
    {
      if valid || status.Corruption? {
        Cursors.FirstKeyFrom(s, lo, savedKey);
      } else {
        Cursors.NoKeyFrom(s, lo);
      }
    }

    lemma LandedBackwardShows(hi: UserKey)
      requires LandedBackward(hi)
      ensures Shows(Cursors.SeekForPrevTo(View(s), hi))
    {
      if valid || status.Corruption? {
        Cursors.LastKeyUpTo(s, hi, savedKey);
      } else {
        Cursors.NoKeyUpTo(s, hi);
      }
    }

    method Next()
      requires Inv() && valid
      modifies this, iter, mergeContext
      ensures LandedForward(old(savedKey) + 1)
      ensures Shows(Cursors.AtIndex(View(s), old(Index()) + 1))
    {
      ghost var key := savedKey;
      LeaveCurrentKey();
      FindNextIfAny();
      Cursors.IndexOfKey(s, key);
      LandedForwardShows(key + 1);
    }

    /** Gets the internal iterator going forward, past the entries known to be done with. */
    method LeaveCurrentKey()
      requires Ready() && Positioned()
      modifies this`isKeySeqnumZero, this`direction, iter
      ensures Ready() && direction == Forward
      ensures Frontier(s, iter.pos, isKeySeqnumZero, savedKey, true, savedKey + 1)
    {
      if direction == Reverse {
        isKeySeqnumZero := false;
        ReverseToForward();
        StartsAtFirstEntry(s, iter.pos, savedKey);
      } else if !currentEntryIsMerged {
        StartsAfterPut(s, iter.pos, isKeySeqnumZero, savedKey);
        iter.Next();
      } else {
        StartsAfterMerge(s, iter.pos, isKeySeqnumZero, savedKey);
      }
    }

    method FindNextIfAny()
      requires Ready() && status.Ok? && direction == Forward && InBounds(s, savedKey)
      requires Frontier(s, iter.pos, isKeySeqnumZero, savedKey, true, savedKey + 1)
      modifies this, iter, mergeContext
      ensures LandedForward(old(savedKey) + 1)
    {
      if iter.Valid() {
        var _ := FindNextUserEntryInternal(true, savedKey + 1);
      } else {
        NothingPassedOver(s, iter.pos, isKeySeqnumZero, savedKey, true, savedKey + 1);
        isKeySeqnumZero := false;
        valid := false;
      }
    }

    /** Gets the internal iterator going backward, before the entries of the current key. */
    method LeaveCurrentKeyBackward()
      requires Ready() && Positioned()
      modifies this`direction, iter
      ensures Ready() && direction == Reverse
      ensures BackFrontier(s, iter.pos, savedKey - 1)
    {
      if direction == Forward {
        ReverseToBackward();
      }
      StartsBeforeKey(s, iter.pos, savedKey);
    }

    method Prev()
      requires Inv() && valid
      modifies this, iter, mergeContext
      ensures LandedBackward(old(savedKey) - 1)
      ensures Shows(Cursors.AtIndex(View(s), old(Index()) - 1))
    {
      ghost var key := savedKey;
      LeaveCurrentKeyBackward();
      PrevInternal(savedKey - 1);
      Cursors.IndexOfKey(s, key);
      LandedBackwardShows(key - 1);
    }

    method Seek(target: UserKey)
      requires Ready()
      modifies this, iter, mergeContext
      ensures LandedForward(target)
      ensures Shows(Cursors.SeekTo(View(s), target))
    {
      status := Ok;
      isKeySeqnumZero := false;
      savedKey := target;
      if s.lowerBound.Some? && savedKey < s.lowerBound.value {
        savedKey := s.lowerBound.value;
      }
      ghost var lo := savedKey;
      iter.Seek(InternalKey(savedKey, s.sequence, SEEK_CODE));
      StartsAtSeek(s, iter.pos, savedKey);
      if !iter.Valid() {
        NothingPassedOver(s, iter.pos, false, savedKey, false, lo);
        valid := false;
      } else {
        direction := Forward;
        savedValue := [];
        var _ := FindNextUserEntryInternal(false, lo);
      }
      LandedForwardShows(target);
    }

    /** Seeks the internal iterator backward to the saved key, or to just before the upper bound. */
    method SeekInternalForPrev() returns (ghost hi: UserKey)
      requires Ready()
      modifies this`savedKey, iter
      ensures Ready() && BackFrontier(s, iter.pos, hi)
      ensures hi == if s.upperBound.Some? && s.upperBound.value <= old(savedKey)
                    then s.upperBound.value - 1 else old(savedKey)
    {
      hi := savedKey;
      if s.upperBound.Some? && s.upperBound.value <= savedKey {
        savedKey := s.upperBound.value;
        hi := savedKey - 1;
        iter.SeekForPrev(InternalKey(savedKey, MAX_SEQUENCE, SEEK_CODE));
        StartsAtUpperBound(s, iter.pos, savedKey);
      } else {
        iter.SeekForPrev(InternalKey(savedKey, 0, SEEK_FOR_PREV_CODE));
        StartsAtSeekForPrev(s, iter.pos, savedKey);
      }
    }

    method SeekForPrev(target: UserKey)
      requires Ready()
      modifies this, iter, mergeContext
      ensures LandedBackward(target)
      ensures Shows(Cursors.SeekForPrevTo(View(s), target))
    {
      status := Ok;
      isKeySeqnumZero := false;
      savedKey := target;
      ghost var hi := SeekInternalForPrev();
      if !iter.Valid() {
        NothingPassedOverBackward(s, iter.pos, hi);
        valid := false;
      } else {
        direction := Reverse;
        savedValue := [];
        PrevInternal(hi);
      }
      LandedBackwardShows(target);
    }

    method SeekToFirst()
      requires Ready()
      modifies this, iter, mergeContext
      ensures Inv() && Shows(Cursors.AtIndex(View(s), 0))
    {
      if s.lowerBound.Some? {
        Seek(s.lowerBound.value);
        Cursors.NoKeyUpTo(s, s.lowerBound.value - 1);
        return;
      }
      status := Ok;
      direction := Forward;
      savedValue := [];
      isKeySeqnumZero := false;
      NoYieldOutsideEntries(s);
      iter.SeekToFirst();
      if iter.Valid() {
        savedKey := iter.entries[iter.pos].key;
        ghost var lo := savedKey;
        StartsAtFirst(s);
        var _ := FindNextUserEntryInternal(false, lo);
        LandedForwardShows(lo);
        Cursors.NoKeyUpTo(s, lo - 1);
      } else {
        valid := false;
        Cursors.NoKeyFrom(s, 0);
        Cursors.NoKeyUpTo(s, -1);
      }
    }

    method SeekToLast()
      requires Ready()
      modifies this, iter, mergeContext
      ensures Inv() && Shows(Cursors.AtIndex(View(s), |View(s)| - 1))
    {
      if s.upperBound.Some? {
        SeekForPrev(s.upperBound.value);
        Cursors.NoKeyFrom(s, s.upperBound.value + 1);
        assert !(valid && savedKey == s.upperBound.value);
        return;
      }
      status := Ok;
      direction := Reverse;
      savedValue := [];
      isKeySeqnumZero := false;
      NoYieldOutsideEntries(s);
      iter.SeekToLast();
      ghost var hi := if iter.Valid() then s.entries[iter.pos].key else 0;
      StartsAtLast(s, hi);
      PrevInternal(hi);
      LandedBackwardShows(hi);
      Cursors.NoKeyFrom(s, hi + 1);
    }

    method Observe() returns (o: Cursors.Observation)
      ensures forall c | Shows(c) :: o == Cursors.Observe(View(s), c)
    {
      o := if valid then Cursors.Pair(savedKey, CurrentValue())
           else if status.Corruption? then Cursors.Error
           else Cursors.Nothing;
    }

    method Perform(command: Cursors.Command, ghost c: Cursors.Cursor)
      requires Inv() && Shows(c)
      modifies this, iter, mergeContext
      ensures Inv() && Shows(Cursors.Step(View(s), c, command))
    {
      match command
      case Seek(target) => Seek(target);
      case SeekForPrev(target) => SeekForPrev(target);
      case SeekToFirst => SeekToFirst();
      case SeekToLast => SeekToLast();
      case Next =>
        if valid {
          StepsFrom(c);
          Next();
        }
      case Prev =>
        if valid {
          StepsFrom(c);
          Prev();
        }
    }

    lemma StepsFrom(c: Cursors.Cursor)
      requires Inv() && valid && Shows(c)
      ensures c == Cursors.On(Index())
    {
      ViewIsSnapshot(s);
      Cursors.CountBelowItem(View(s), c.index);
    }
  }

  /** Whatever a client does with a fresh or used iterator, what it observes is what a cursor on the view shows.
      Nothing on the right-hand side depends on `maxSkip`, on the direction or on the reseeks made. */
  method RunScript(it: DBIter, script: seq<Cursors.Command>, ghost c: Cursors.Cursor)
    returns (trace: seq<Cursors.Observation>)
    requires it.Inv() && it.Shows(c)
    modifies it, it.iter, it.mergeContext
    ensures it.Inv()
    ensures trace == Cursors.Trace(View(it.s), c, script) && it.Shows(Cursors.After(View(it.s), c, script))
  {
    trace := [];
    ghost var cursor := c;
    for i := 0 to |script|
      invariant it.Inv() && it.Shows(cursor)
      invariant trace + Cursors.Trace(View(it.s), cursor, script[i..]) == Cursors.Trace(View(it.s), c, script)
      invariant Cursors.After(View(it.s), cursor, script[i..]) == Cursors.After(View(it.s), c, script)
    {
      ghost var rest := script[i..];
      it.Perform(script[i], cursor);
      assert rest[1..] == script[i + 1..];
      cursor := Cursors.Step(View(it.s), cursor, script[i]);
      var o := it.Observe();
      trace := trace + [o];
    }
  }

  /** Reads the current item and moves on. */
  method ReadNext(it: DBIter, ghost i: nat) returns (o: Cursors.Observation)
    requires it.Inv() && it.valid && it.Shows(Cursors.AtIndex(View(it.s), i))
    modifies it, it.iter, it.mergeContext
    ensures i < |View(it.s)| && View(it.s)[i].result.Found? && o == Cursors.Observed(View(it.s)[i])
    ensures it.Inv() && it.Shows(Cursors.AtIndex(View(it.s), i + 1))
  {
    it.StepsFrom(Cursors.On(i));
    o := it.Observe();
    assert o == Cursors.Observe(View(it.s), Cursors.On(i));
    it.Next();
  }

  /** Reads the current item and moves back. */
  method ReadPrev(it: DBIter, ghost i: int) returns (o: Cursors.Observation)
    requires it.Inv() && it.valid && it.Shows(Cursors.AtIndex(View(it.s), i))
    modifies it, it.iter, it.mergeContext
    ensures 0 <= i < |View(it.s)| && View(it.s)[i].result.Found? && o == Cursors.Observed(View(it.s)[i])
    ensures it.Inv() && it.Shows(Cursors.AtIndex(View(it.s), i - 1))
  {
    it.StepsFrom(Cursors.On(i));
    o := it.Observe();
    assert o == Cursors.Observe(View(it.s), Cursors.On(i));
    it.Prev();
  }

  /** A full scan from the front reads the view in order, up to the first key whose merge fails. */
  method ScanForward(it: DBIter) returns (read: seq<Cursors.Observation>)
    requires it.Inv()
    modifies it, it.iter, it.mergeContext
    ensures it.Inv() && !it.valid && (it.status.Ok? <==> Cursors.AllFound(View(it.s)))
    ensures var view := View(it.s); read == Cursors.Observations(view[..Cursors.FoundFromFront(view)])
  {
    hide View, Reversed, Cursors.Observations, Cursors.FoundFromFront, Cursors.AllFound;
    ghost var view := View(it.s);
    ghost var i := 0;
    it.SeekToFirst();
    read := [];
    Cursors.NothingRead(view);
    while it.valid
      invariant it.Inv() && i <= |view| && it.Shows(Cursors.AtIndex(view, i)) && Cursors.AllFound(view[..i])
      invariant read == Cursors.Observations(view[..i])
      decreases |view| - i
    {
      var o := ReadNext(it, i);
      Cursors.OneMoreRead(view, i);
      read := read + [o];
      i := i + 1;
    }
    Cursors.FrontIs(view, i);
    Cursors.ScanEnds(view, i);
  }

  /** A full scan from the back reads the view in reverse order, down to the last key whose merge fails. */
  method ScanBackward(it: DBIter) returns (read: seq<Cursors.Observation>)
    requires it.Inv()
    modifies it, it.iter, it.mergeContext
    ensures it.Inv() && !it.valid && (it.status.Ok? <==> Cursors.AllFound(View(it.s)))
    ensures var view := View(it.s); read == Reversed(Cursors.Observations(view[Cursors.FoundFromBack(view)..]))
  {
    hide View, Reversed, Cursors.FoundFromBack, Cursors.AllFound;
    ghost var view := View(it.s);
    ghost var i := |view|;
    it.SeekToLast();
    read := [];
    Cursors.NothingRead(view);
    while it.valid
      invariant it.Inv() && 0 <= i <= |view| && it.Shows(Cursors.AtIndex(view, i - 1)) && Cursors.AllFound(view[i..])
      invariant read == Reversed(Cursors.Observations(view[i..]))
      decreases i
    {
      var o := ReadPrev(it, i - 1);
      Cursors.OneMoreReadBackward(view, i - 1);
      read := read + [o];
      i := i - 1;
    }
    Cursors.BackIs(view, i);
    Cursors.ScanEnds(view, i);
  }

  /** Both full scans of one iterator: the one reads the reverse of the other if and only if no merge fails, or the
      merges of the first and the last key both do and neither scan reads anything. */
  method ScanBothWays(it: DBIter) returns (forward: seq<Cursors.Observation>, backward: seq<Cursors.Observation>)
    requires it.Inv()
    modifies it, it.iter, it.mergeContext
    ensures it.Inv()
    ensures var view := View(it.s);
            backward == Reversed(forward)
            <==> Cursors.AllFound(view) || (!view[0].result.Found? && !view[|view| - 1].result.Found?)
    ensures Cursors.AllFound(View(it.s)) ==> forward == Cursors.Observations(View(it.s))
  {
    forward := ScanForward(it);
    backward := ScanBackward(it);
    ViewIsSnapshot(it.s);
    Cursors.ScansMirror(View(it.s));
    if Cursors.AllFound(View(it.s)) {
      Cursors.FrontIs(View(it.s), |View(it.s)|);
      assert View(it.s)[..|View(it.s)|] == View(it.s);
    }
  }

  /** A failing merge in the middle: each scan reads one key, the forward scan the first and the backward scan the
      last. */
  method ScansThatDiffer(v: Value, w: Value, maxSkip: nat)
    returns (forward: seq<Cursors.Observation>, backward: seq<Cursors.Observation>)
    ensures forward == [Cursors.Pair(AAA, v)] && backward == [Cursors.Pair(BBC, w)] && backward != Reversed(forward)
  {
    hide View, Cursors.FoundFromFront, Cursors.FoundFromBack;
    var s := FailingMiddle(v, w);
    FailingMiddleView(v, w);
    Cursors.FrontIs(View(s), 1);
    Cursors.BackIs(View(s), 2);
    var iter := new InternalIterator(s.entries);
    var it := new DBIter(s, iter, maxSkip);
    forward := ScanForward(it);
    backward := ScanBackward(it);
    assert View(s)[..1] == [Item(AAA, Found(v))] && View(s)[2..] == [Item(BBC, Found(w))];
    assert Reversed(forward)[0] == forward[0];
    assert Reversed(backward) == backward;
  }

  /** Next or Prev `n` times and then the other one `n` times: the same key with the same value again, provided that
      the keys on the way are there and their merges do not fail. */
  method TurnRound(it: DBIter, ahead: Cursors.Command, n: nat)
    requires it.Inv() && it.valid && (ahead.Next? || ahead.Prev?)
    requires ahead.Next? ==> Cursors.FoundBetween(View(it.s), it.Index(), it.Index() + n)
    requires ahead.Prev? ==> Cursors.FoundBetween(View(it.s), it.Index() - n, it.Index())
    modifies it, it.iter, it.mergeContext
    ensures it.Inv() && it.valid
    ensures it.savedKey == old(it.savedKey) && it.CurrentValue() == old(it.CurrentValue())
  {
    ghost var i := it.Index();
    it.ShowsIndex();
    Cursors.TurningRoundReturns(View(it.s), i, n);
    var back := if ahead.Next? then Cursors.Prev else Cursors.Next;
    var _ := RunScript(it, Cursors.Repeat(ahead, n) + Cursors.Repeat(back, n), Cursors.On(i));
  }
}
