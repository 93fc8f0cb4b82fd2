/** The total-order iterator over internal keys that a `DbIter` wraps. */
module InternalIterators {
  import opened SnapshotView

  /** Position `n` is the first entry at or after `target`. */
  ghost predicate SeekLandsAt(entries: seq<Entry>, target: InternalKey, n: int) {
    && 0 <= n <= |entries|
    && (forall i | 0 <= i < n :: Before(KeyOf(entries[i]), target))
    && (n < |entries| ==> !Before(KeyOf(entries[n]), target))
  }

  /** Position `n` is the last entry at or before `target`. */
  ghost predicate SeekForPrevLandsAt(entries: seq<Entry>, target: InternalKey, n: int) {
    && -1 <= n < |entries|
    && (forall i | n < i < |entries| :: Before(target, KeyOf(entries[i])))
    && (n >= 0 ==> !Before(target, KeyOf(entries[n])))
  }

  class InternalIterator {
    const entries: seq<Entry>
    /** -1 and |entries| are the two positions at which the iterator is not valid. */
    var pos: int

    ghost predicate InRange()
      reads this
    {
      -1 <= pos <= |entries|
    }

    predicate Valid()
      reads this
    {
      0 <= pos < |entries|
    }

    constructor (entries: seq<Entry>)
      ensures this.entries == entries && InRange() && !Valid()
    {
      this.entries := entries;
      pos := |entries|;
    }

    method Next()
      requires Valid()
      modifies this
      ensures pos == old(pos) + 1
    {
      pos := pos + 1;
    }

    method Prev()
      requires Valid()
      modifies this
      ensures pos == old(pos) - 1
    {
      pos := pos - 1;
    }

    /** Moves to the first entry at or after `target`. */
    method Seek(target: InternalKey)
      modifies this
      ensures SeekLandsAt(entries, target, pos)
    {
      pos := 0;
      while pos < |entries| && Before(KeyOf(entries[pos]), target)
        invariant 0 <= pos <= |entries|
        invariant forall i | 0 <= i < pos :: Before(KeyOf(entries[i]), target)
      {
        pos := pos + 1;
      }
    }

    /** Moves to the last entry at or before `target`. */
    method SeekForPrev(target: InternalKey)
      modifies this
      ensures SeekForPrevLandsAt(entries, target, pos)
    {
      pos := |entries| - 1;
      while pos >= 0 && Before(target, KeyOf(entries[pos]))
        invariant -1 <= pos < |entries|
        invariant forall i | pos < i < |entries| :: Before(target, KeyOf(entries[i]))
        decreases pos
      {
        pos := pos - 1;
      }
    }

    method SeekToFirst()
      modifies this
      ensures pos == 0
    {
      pos := 0;
    }

    method SeekToLast()
      modifies this
      ensures pos == |entries| - 1
    {
      pos := |entries| - 1;
    }
  }
}
