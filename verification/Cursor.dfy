/** A cursor on a sorted list of items: what an iterator over the snapshot view has to behave like. */
module Cursors {
  import opened Sequences
  import opened SnapshotView

  /** Broken: the cursor ran into a key whose merge failed, and only a seek gets it going again. */
  datatype Cursor = Off | Broken | On(index: nat)

  /** Number of items with a key below `k`. */
  function CountBelow(view: seq<Item>, k: UserKey): (n: nat)
    ensures n <= |view|
  {
    if view == [] then 0
    else (if view[0].key < k then 1 else 0) + CountBelow(view[1..], k)
  }

  function AtIndex(view: seq<Item>, i: int): Cursor {
    if i < 0 || i >= |view| then Off
    else if view[i].result.Found? then On(i)
    else Broken
  }

  function SeekTo(view: seq<Item>, target: UserKey): Cursor {
    AtIndex(view, CountBelow(view, target))
  }

  function SeekForPrevTo(view: seq<Item>, target: UserKey): Cursor {
    AtIndex(view, CountBelow(view, target + 1) - 1)
  }

  // ----- Scripts -----

  datatype Command = Seek(target: UserKey) | SeekForPrev(target: UserKey) | SeekToFirst | SeekToLast | Next | Prev

  datatype Observation = Nothing | Error | Pair(key: UserKey, value: Value)

  /** A client may only step a cursor that is on an item; otherwise the step is not made. */
  function Step(view: seq<Item>, c: Cursor, command: Command): Cursor {
    match command
    case Seek(target) => SeekTo(view, target)
    case SeekForPrev(target) => SeekForPrevTo(view, target)
    case SeekToFirst => AtIndex(view, 0)
    case SeekToLast => AtIndex(view, |view| - 1)
    case Next => if c.On? then AtIndex(view, c.index + 1) else c
    case Prev => if c.On? then AtIndex(view, c.index - 1) else c
  }

  function Observe(view: seq<Item>, c: Cursor): Observation {
    match c
    case Off => Nothing
    case Broken => Error
    case On(i) => if i < |view| && view[i].result.Found? then Pair(view[i].key, view[i].result.value) else Error
  }

  function Trace(view: seq<Item>, c: Cursor, script: seq<Command>): seq<Observation>
    decreases |script|
  {
    if script == [] then []
    else
      var c' := Step(view, c, script[0]);
      [Observe(view, c')] + Trace(view, c', script[1..])
  }

  function Repeat(command: Command, n: nat): seq<Command> {
    if n == 0 then [] else [command] + Repeat(command, n - 1)
  }

  // ----- Lemmas -----

  /** In a strictly increasing list the items below `k` are a prefix. */
  lemma {:induction false} CountBelowIsPrefix(view: seq<Item>, k: UserKey)
    requires StrictlyIncreasing(view)
    ensures forall i | 0 <= i < |view| :: view[i].key < k <==> i < CountBelow(view, k)
  {
    if view != [] {
      CountBelowIsPrefix(view[1..], k);
      forall i | 0 <= i < |view|
        ensures view[i].key < k <==> i < CountBelow(view, k)
      {
        if i > 0 {
          assert view[i] == view[1..][i - 1];
        }
      }
    }
  }

  /** Items below the key of item `i`, and at or below it. */
  lemma CountBelowItem(view: seq<Item>, i: nat)
    requires StrictlyIncreasing(view) && i < |view|
    ensures CountBelow(view, view[i].key) == i
    ensures CountBelow(view, view[i].key + 1) == i + 1
  {
    CountBelowIsPrefix(view, view[i].key);
    CountBelowIsPrefix(view, view[i].key + 1);
    var n, n' := CountBelow(view, view[i].key), CountBelow(view, view[i].key + 1);
    assert n <= i < n';
    assert view[n].key >= view[i].key;
    assert view[n' - 1].key <= view[i].key;
  }

  /** The first key of the view at or after `lo` is the item a seek to `lo` lands on. */
  lemma FirstKeyFrom(s: Snapshot, lo: UserKey, k: UserKey)
    requires WellFormed(s) && Yields(s, k) && lo <= k
    requires forall k' | lo <= k' < k :: !Yields(s, k')
    ensures var n := CountBelow(View(s), lo); n < |View(s)| && View(s)[n] == Item(k, Get(s, k))
  {
    hide CountBelow, View, Get, Yields, WellFormed;
    ViewIsSnapshot(s);
    CountBelowIsPrefix(View(s), lo);
    var n := CountBelow(View(s), lo);
    var j :| 0 <= j < |View(s)| && View(s)[j].key == k;
    assert n <= j;
    assert View(s)[n].key <= k;
  }

  lemma NoKeyFrom(s: Snapshot, lo: UserKey)
    requires WellFormed(s) && forall k | lo <= k :: !Yields(s, k)
    ensures CountBelow(View(s), lo) == |View(s)|
  {
    ViewIsSnapshot(s);
    CountBelowIsPrefix(View(s), lo);
    forall i | 0 <= i < |View(s)|
      ensures View(s)[i].key < lo
    {
      assert Yields(s, View(s)[i].key);
    }
    if View(s) != [] {
      assert View(s)[|View(s)| - 1].key < lo;
    }
  }

  /** The index of a key that yields, and the two indices next to it. */
  lemma IndexOfKey(s: Snapshot, k: UserKey)
    requires WellFormed(s) && Yields(s, k)
    ensures var i := CountBelow(View(s), k);
            && i < |View(s)| && View(s)[i] == Item(k, Get(s, k))
            && SeekTo(View(s), k + 1) == AtIndex(View(s), i + 1)
            && SeekForPrevTo(View(s), k - 1) == AtIndex(View(s), i - 1)
  {
    hide CountBelow, View, Get, StrictlyIncreasing;
    FirstKeyFrom(s, k, k);
    ViewIsSnapshot(s);
    CountBelowItem(View(s), CountBelow(View(s), k));
  }

  /** The last key of the view at or before `hi` is the item a backward seek to `hi` lands on. */
  lemma LastKeyUpTo(s: Snapshot, hi: UserKey, k: UserKey)
    requires WellFormed(s) && Yields(s, k) && k <= hi
    requires forall k' | k < k' <= hi :: !Yields(s, k')
    ensures var n := CountBelow(View(s), hi + 1); 0 < n <= |View(s)| && View(s)[n - 1] == Item(k, Get(s, k))
  {
    hide CountBelow, View, Get, Yields, WellFormed;
    ViewIsSnapshot(s);
    CountBelowIsPrefix(View(s), hi + 1);
    var n := CountBelow(View(s), hi + 1);
    var j :| 0 <= j < |View(s)| && View(s)[j].key == k;
    assert j < n;
    assert k <= View(s)[n - 1].key <= hi;
  }

  lemma NoKeyUpTo(s: Snapshot, hi: UserKey)
    requires WellFormed(s) && forall k | k <= hi :: !Yields(s, k)
    ensures CountBelow(View(s), hi + 1) == 0
  {
    ViewIsSnapshot(s);
    CountBelowIsPrefix(View(s), hi + 1);
  }

  ghost predicate AllFound(view: seq<Item>) {
    forall i | 0 <= i < |view| :: view[i].result.Found?
  }

  function Observed(item: Item): Observation {
    if item.result.Found? then Pair(item.key, item.result.value) else Error
  }

  function Observations(items: seq<Item>): (r: seq<Observation>)
    ensures |r| == |items|
  {
    seq(|items|, i requires 0 <= i < |items| => Observed(items[i]))
  }

  // ----- Full scans -----

  /** How far a scan gets from the front: to the first key whose merge fails. */
  function FoundFromFront(view: seq<Item>): (n: nat)
    ensures n <= |view| && AllFound(view[..n]) && (n < |view| ==> !view[n].result.Found?)
  {
    if view == [] || !view[0].result.Found? then 0
    else
      var n := 1 + FoundFromFront(view[1..]);
      assert forall i | 0 < i < n :: view[i] == view[1..][..n - 1][i - 1];
      n
  }

  /** How far from the front a scan from the back gets: to just behind the last key whose merge fails. */
  function FoundFromBack(view: seq<Item>): (n: nat)
    ensures n <= |view| && AllFound(view[n..]) && (n > 0 ==> !view[n - 1].result.Found?)
  {
    if view == [] || !view[|view| - 1].result.Found? then |view|
    else
      var n := FoundFromBack(view[..|view| - 1]);
      assert forall i | n <= i < |view| - 1 :: view[i] == view[..|view| - 1][n..][i - n];
      n
  }

  lemma FrontIs(view: seq<Item>, n: nat)
    requires n <= |view| && AllFound(view[..n]) && (n < |view| ==> !view[n].result.Found?)
    ensures FoundFromFront(view) == n
  {
  }

  lemma BackIs(view: seq<Item>, n: nat)
    requires n <= |view| && AllFound(view[n..]) && (n > 0 ==> !view[n - 1].result.Found?)
    ensures FoundFromBack(view) == n
  {
  }

  lemma NothingRead(view: seq<Item>)
    ensures Observations(view[..0]) == [] && AllFound(view[..0])
    ensures Reversed(Observations(view[|view|..])) == [] && AllFound(view[|view|..])
  {
    assert view[..0] == [] == view[|view|..];
  }

  lemma OneMoreRead(view: seq<Item>, i: nat)
    requires i < |view| && view[i].result.Found?
    ensures Observations(view[..i + 1]) == Observations(view[..i]) + [Observed(view[i])]
    ensures AllFound(view[..i]) ==> AllFound(view[..i + 1])
  {
    assert view[..i + 1] == view[..i] + [view[i]];
  }

  lemma OneMoreReadBackward(view: seq<Item>, i: nat)
    requires i < |view| && view[i].result.Found?
    ensures Reversed(Observations(view[i..])) == Reversed(Observations(view[i + 1..])) + [Observed(view[i])]
    ensures AllFound(view[i + 1..]) ==> AllFound(view[i..])
  {
    var rest := Observations(view[i + 1..]);
    assert view[i..] == [view[i]] + view[i + 1..];
    assert Observations(view[i..]) == [Observed(view[i])] + rest;
    assert ([Observed(view[i])] + rest)[1..] == rest;
  }

  /** A scan that has reached the other end has read everything; one that was stopped has not. */
  lemma ScanEnds(view: seq<Item>, i: nat)
    requires i <= |view|
    ensures i == |view| && AllFound(view[..i]) ==> AllFound(view)
    ensures i < |view| && !view[i].result.Found? ==> !AllFound(view)
    ensures i == 0 && AllFound(view[i..]) ==> AllFound(view)
    ensures i > 0 && !view[i - 1].result.Found? ==> !AllFound(view)
  {
    assert view[..|view|] == view == view[0..];
  }

  /** What the two full scans read is the same in opposite order if and only if no merge fails, or the first and the
      last key of the view both fail and neither scan gets anywhere. */
  lemma ScansMirror(view: seq<Item>)
    requires StrictlyIncreasing(view)
    ensures var forward := Observations(view[..FoundFromFront(view)]);
            var backward := Reversed(Observations(view[FoundFromBack(view)..]));
            backward == Reversed(forward)
            <==> AllFound(view) || (!view[0].result.Found? && !view[|view| - 1].result.Found?)
  {
    var n, m := FoundFromFront(view), FoundFromBack(view);
    var forward, rest := Observations(view[..n]), Observations(view[m..]);
    ReversedTwice(forward);
    ReversedTwice(rest);
    if AllFound(view) {
      FrontIs(view, |view|);
      BackIs(view, 0);
      assert view[..n] == view == view[m..];
    } else {
      EmptyScans(view);
      if n > 0 && m < |view| {
        DifferentStarts(view, n, m);
      }
    }
  }

  /** A scan reads nothing exactly if it starts at a key whose merge fails. */
  lemma EmptyScans(view: seq<Item>)
    requires view != []
    ensures FoundFromFront(view) == 0 <==> !view[0].result.Found?
    ensures FoundFromBack(view) == |view| <==> !view[|view| - 1].result.Found?
  {
    var n, m := FoundFromFront(view), FoundFromBack(view);
    assert n > 0 ==> view[..n][0] == view[0];
    assert m < |view| ==> view[m..][|view| - 1 - m] == view[|view| - 1];
  }

  /** Where a merge fails, the two scans have read from different keys on. */
  lemma DifferentStarts(view: seq<Item>, n: nat, m: nat)
    requires StrictlyIncreasing(view) && !AllFound(view) && 0 < n <= |view| && m < |view|
    requires AllFound(view[..n]) && AllFound(view[m..])
    ensures Observations(view[..n]) != Observations(view[m..])
  {
    var forward, rest := Observations(view[..n]), Observations(view[m..]);
    assert view[..n][0] == view[0] && view[m..][0] == view[m];
    assert view[0..] == view;
    assert forward[0] == Observed(view[0]) && rest[0] == Observed(view[m]);
  }

  // ----- Turning round -----

  /** Where a script leaves a cursor. */
  function After(view: seq<Item>, c: Cursor, script: seq<Command>): Cursor
    decreases |script|
  {
    if script == [] then c else After(view, Step(view, c, script[0]), script[1..])
  }

  lemma {:induction false} AfterAppend(view: seq<Item>, c: Cursor, a: seq<Command>, b: seq<Command>)
    ensures After(view, c, a + b) == After(view, After(view, c, a), b)
    decreases |a|
  {
    if a == [] {
      assert a + b == b;
    } else {
      AfterAppend(view, Step(view, c, a[0]), a[1..], b);
      assert (a + b)[1..] == a[1..] + b;
    }
  }

  ghost predicate FoundBetween(view: seq<Item>, lo: int, hi: int) {
    0 <= lo <= hi < |view| && forall j | lo <= j <= hi :: view[j].result.Found?
  }

  lemma {:induction false} AfterNexts(view: seq<Item>, i: nat, n: nat)
    requires FoundBetween(view, i, i + n)
    ensures After(view, On(i), Repeat(Next, n)) == On(i + n)
    decreases n
  {
    if n > 0 {
      AfterNexts(view, i + 1, n - 1);
    }
  }

  lemma {:induction false} AfterPrevs(view: seq<Item>, i: nat, n: nat)
    requires FoundBetween(view, i - n, i)
    ensures After(view, On(i), Repeat(Prev, n)) == On(i - n)
    decreases n
  {
    if n > 0 {
      AfterPrevs(view, i - 1, n - 1);
    }
  }

  /** Moves in one direction followed by as many in the other lead back to the item they started from. */
  lemma TurningRoundReturns(view: seq<Item>, i: nat, n: nat)
    ensures FoundBetween(view, i, i + n) ==> After(view, On(i), Repeat(Next, n) + Repeat(Prev, n)) == On(i)
    ensures FoundBetween(view, i - n, i) ==> After(view, On(i), Repeat(Prev, n) + Repeat(Next, n)) == On(i)
  {
    AfterAppend(view, On(i), Repeat(Next, n), Repeat(Prev, n));
    AfterAppend(view, On(i), Repeat(Prev, n), Repeat(Next, n));
    if FoundBetween(view, i, i + n) {
      AfterNexts(view, i, n);
      AfterPrevs(view, i + n, n);
    }
    if FoundBetween(view, i - n, i) {
      AfterPrevs(view, i, n);
      AfterNexts(view, i - n, n);
    }
  }
}
