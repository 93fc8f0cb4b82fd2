/** The built-in comparators and the shortening of keys for index blocks. */
module Comparators {
  import opened DbFormat
  import opened SequenceNumbers

  // ----- Bytewise order -----

  /** BytewiseComparator: lexicographic order, a prefix first. */
  function Bytewise(a: Bytes, b: Bytes): (r: int)
    ensures -1 <= r <= 1
  {
    if a == [] && b == [] then 0
    else if a == [] then -1
    else if b == [] then 1
    else if a[0] < b[0] then -1
    else if a[0] > b[0] then 1
    else Bytewise(a[1..], b[1..])
  }

  function ReverseBytewise(a: Bytes, b: Bytes): int {
    -Bytewise(a, b)
  }

  lemma {:induction false} BytewiseAntisymmetric(a: Bytes, b: Bytes)
    ensures Bytewise(a, b) == -Bytewise(b, a) && (Bytewise(a, b) == 0 <==> a == b)
  {
    if a != [] && b != [] && a[0] == b[0] {
      BytewiseAntisymmetric(a[1..], b[1..]);
      assert a == [a[0]] + a[1..] && b == [b[0]] + b[1..];
    }
  }

  lemma {:induction false} BytewiseTransitive(a: Bytes, b: Bytes, c: Bytes)
    ensures Bytewise(a, b) <= 0 && Bytewise(b, c) <= 0 ==> Bytewise(a, c) <= 0
  {
    if a != [] && b != [] && c != [] {
      BytewiseTransitive(a[1..], b[1..], c[1..]);
    }
  }

  lemma BytewiseIsComparator()
    ensures IsComparator(Bytewise) && IsComparator(ReverseBytewise)
  {
    forall a, b
      ensures Bytewise(a, b) == -Bytewise(b, a) && Bytewise(a, a) == 0
    {
      BytewiseAntisymmetric(a, b);
      BytewiseAntisymmetric(a, a);
    }
    forall a, b, c
      ensures Bytewise(a, b) <= 0 && Bytewise(b, c) <= 0 ==> Bytewise(a, c) <= 0
    {
      BytewiseTransitive(a, b, c);
    }
  }

  /** Where two keys first differ decides. */
  lemma {:induction false} DecidedAt(a: Bytes, b: Bytes, d: nat)
    requires d <= |a| && d <= |b| && a[..d] == b[..d]
    ensures d < |a| && d < |b| && a[d] < b[d] ==> Bytewise(a, b) == -1
    ensures d == |a| < |b| ==> Bytewise(a, b) == -1
    decreases d
  {
    if d > 0 {
      assert a[0] == a[..d][0] && b[0] == b[..d][0];
      assert a[1..][..d - 1] == a[..d][1..] && b[1..][..d - 1] == b[..d][1..];
      DecidedAt(a[1..], b[1..], d - 1);
    }
  }

  // ----- Shortening -----

  function CommonPrefix(a: Bytes, b: Bytes): (d: nat)
    ensures d <= |a| && d <= |b| && a[..d] == b[..d]
    ensures d < |a| && d < |b| ==> a[d] != b[d]
  {
    if a == [] || b == [] || a[0] != b[0] then 0
    else
      var d := 1 + CommonPrefix(a[1..], b[1..]);
      assert a[..d] == [a[0]] + a[1..][..d - 1] && b[..d] == [b[0]] + b[1..][..d - 1];
      d
  }

  /** The first position from `i` on that does not hold 0xFF, or the length. */
  function FirstBelow255(key: Bytes, i: nat): (j: nat)
    requires i <= |key|
    ensures i <= j <= |key| && (j < |key| ==> key[j] < 255) && forall k | i <= k < j :: key[k] == 255
    decreases |key| - i
  {
    if i == |key| || key[i] < 255 then i else FirstBelow255(key, i + 1)
  }

  /** Cut behind position `j` and incremented there. */
  function Incremented(key: Bytes, j: nat): Bytes
    requires j < |key| ==> key[j] < 255
  {
    if j < |key| then key[..j] + [key[j] + 1] else key
  }

  /** What BytewiseComparator::FindShortestSeparator makes of `start`. */
  function BytewiseSeparator(start: Bytes, limit: Bytes): Bytes {
    var d := CommonPrefix(start, limit);
    if d == |start| || d == |limit| || start[d] >= limit[d] then start
    else if d < |limit| - 1 || start[d] + 1 < limit[d] then Incremented(start, d)
    else Incremented(start, FirstBelow255(start, d + 1))
  }

  /** The inner loop of FindShortestSeparator: increments the first byte from `i` on that can be, and cuts behind it. */
  method IncrementFrom(start: Bytes, i: nat) returns (s: Bytes)
    requires i <= |start|
    ensures s == Incremented(start, FirstBelow255(start, i))
  {
    s := start;
    var diffIndex := i;
    while diffIndex < |s|
      invariant i <= diffIndex <= |s| && s == start
      invariant FirstBelow255(start, i) == FirstBelow255(start, diffIndex)
    {
      if s[diffIndex] < 0xFF {
        s := s[diffIndex := s[diffIndex] + 1];
        s := s[..diffIndex + 1];
        break;
      }
      diffIndex := diffIndex + 1;
    }
  }

  method FindShortestSeparator(start: Bytes, limit: Bytes) returns (s: Bytes)
    ensures s == BytewiseSeparator(start, limit)
  {
    s := start;
    var minLength := if |start| < |limit| then |start| else |limit|;
    var diffIndex: nat := 0;
    while diffIndex < minLength && start[diffIndex] == limit[diffIndex]
      invariant diffIndex <= minLength && start[..diffIndex] == limit[..diffIndex]
    {
      diffIndex := diffIndex + 1;
    }
    PrefixEnds(start, limit, diffIndex);
    if diffIndex < minLength {
      if start[diffIndex] >= limit[diffIndex] {
        return;
      }
      if diffIndex < |limit| - 1 || start[diffIndex] + 1 < limit[diffIndex] {
        s := s[diffIndex := s[diffIndex] + 1];
        s := s[..diffIndex + 1];
      } else {
        s := IncrementFrom(start, diffIndex + 1);
      }
    }
  }

  lemma {:induction false} PrefixEnds(a: Bytes, b: Bytes, d: nat)
    requires d <= |a| && d <= |b| && a[..d] == b[..d] && (d < |a| && d < |b| ==> a[d] != b[d])
    ensures CommonPrefix(a, b) == d
    decreases d
  {
    if d > 0 {
      assert a[0] == a[..d][0] == b[..d][0] == b[0];
      assert a[1..][..d - 1] == a[..d][1..] && b[1..][..d - 1] == b[..d][1..];
      PrefixEnds(a[1..], b[1..], d - 1);
    }
  }

  /** The separator is not longer and, where start is below limit, lies from start on and below limit. */
  lemma BytewiseSeparatorBetween(start: Bytes, limit: Bytes)
    ensures var s := BytewiseSeparator(start, limit);
            && |s| <= |start|
            && Bytewise(start, s) <= 0
            && (Bytewise(start, limit) < 0 ==> Bytewise(s, limit) < 0)
            && (Bytewise(start, limit) >= 0 ==> s == start)
  {
    var s := BytewiseSeparator(start, limit);
    var d := CommonPrefix(start, limit);
    BytewiseAntisymmetric(start, start);
    if d < |start| && d < |limit| {
      if start[d] < limit[d] {
        DecidedAt(start, limit, d);
        if d < |limit| - 1 || start[d] + 1 < limit[d] {
          DecidedAt(start, s, d);
          assert s[..d] == limit[..d];
          DecidedAt(s, limit, d);
          if s[d] == limit[d] {
            assert s[..d + 1] == limit[..d + 1];
            DecidedAt(s, limit, d + 1);
          }
        } else {
          var j := FirstBelow255(start, d + 1);
          if j < |start| {
            DecidedAt(start, s, j);
          }
          assert s[..d] == start[..d];
          DecidedAt(s, limit, d);
        }
      }
    }
  }

  /** What BytewiseComparator::FindShortSuccessor makes of a key: at least the key, and not longer. */
  function BytewiseSuccessor(key: Bytes): Bytes {
    Incremented(key, FirstBelow255(key, 0))
  }

  method FindShortSuccessor(key: Bytes) returns (s: Bytes)
    ensures s == BytewiseSuccessor(key)
  {
    var i := 0;
    while i < |key|
      invariant 0 <= i <= |key| && FirstBelow255(key, 0) == FirstBelow255(key, i)
    {
      if key[i] != 0xFF {
        s := key[i := key[i] + 1];
        s := s[..i + 1];
        return;
      }
      i := i + 1;
    }
    s := key;
  }

  lemma BytewiseSuccessorIsAbove(key: Bytes)
    ensures var s := BytewiseSuccessor(key);
            |s| <= |key| && Bytewise(key, s) <= 0 && (s == key <==> forall i | 0 <= i < |key| :: key[i] == 255)
  {
    var j := FirstBelow255(key, 0);
    BytewiseAntisymmetric(key, key);
    if j < |key| {
      DecidedAt(key, BytewiseSuccessor(key), j);
      assert BytewiseSuccessor(key)[j] == key[j] + 1;
    }
  }

  /** ReverseBytewiseComparator::FindShortestSeparator cuts start behind the first difference. */
  function ReverseSeparator(start: Bytes, limit: Bytes): Bytes {
    var d := CommonPrefix(start, limit);
    if d < |start| - 1 && d < |limit| && start[d] > limit[d] then start[..d + 1] else start
  }

  lemma ReverseSeparatorBetween(start: Bytes, limit: Bytes)
    ensures var s := ReverseSeparator(start, limit);
            && |s| <= |start|
            && ReverseBytewise(start, s) <= 0
            && (ReverseBytewise(start, limit) < 0 ==> ReverseBytewise(s, limit) < 0)
            && (ReverseBytewise(start, limit) >= 0 ==> s == start)
  {
    var s := ReverseSeparator(start, limit);
    var d := CommonPrefix(start, limit);
    BytewiseAntisymmetric(start, start);
    BytewiseAntisymmetric(start, s);
    BytewiseAntisymmetric(start, limit);
    BytewiseAntisymmetric(s, limit);
    if s != start {
      assert s == start[..|s|];
      DecidedAt(s, start, |s|);
      assert limit[..d] == s[..d];
      DecidedAt(limit, s, d);
      DecidedAt(limit, start, d);
    }
  }

  // ----- Nothing shorter would do -----

  /** What lies between two keys shares their common prefix. */
  lemma {:induction false} BetweenSharesPrefix(a: Bytes, t: Bytes, b: Bytes, d: nat)
    requires d <= |a| && d <= |b| && a[..d] == b[..d] && Bytewise(a, t) <= 0 && Bytewise(t, b) <= 0
    ensures d <= |t| && t[..d] == a[..d]
    decreases d
  {
    if d > 0 {
      assert a[0] == a[..d][0] == b[..d][0] == b[0];
      assert a[1..][..d - 1] == a[..d][1..] && b[1..][..d - 1] == b[..d][1..];
      BetweenSharesPrefix(a[1..], t[1..], b[1..], d - 1);
      assert t[..d] == [t[0]] + t[1..][..d - 1] && a[..d] == [a[0]] + a[1..][..d - 1];
    }
  }

  /** A key from `a` on that starts as `a` does goes on with its run of 0xFF, and does not end there before `a` does. */
  lemma {:induction false} AboveRun(a: Bytes, t: Bytes, from: nat, j: nat)
    requires from <= j <= |a| && from <= |t| && t[..from] == a[..from] && Bytewise(a, t) <= 0
    requires forall k | from <= k < j :: a[k] == 255
    ensures j <= |t| && (j < |a| ==> j < |t|)
    decreases j
  {
    if j > 0 {
      assert from > 0 ==> a[0] == a[..from][0] == t[..from][0] == t[0];
      var from' := if from > 0 then from - 1 else 0;
      assert from > 0 ==> a[1..][..from'] == a[..from][1..] && t[1..][..from'] == t[..from][1..];
      AboveRun(a[1..], t[1..], from', j - 1);
    }
  }

  /** Below limit the common prefix ends within limit, and within start only where start is below there. */
  lemma PrefixOfSmaller(start: Bytes, limit: Bytes, d: nat)
    requires Bytewise(start, limit) < 0 && d == CommonPrefix(start, limit)
    ensures d < |limit| && (d < |start| ==> start[d] < limit[d])
  {
    BytewiseAntisymmetric(start, limit);
    if d == |limit| {
      assert limit == start[..d];
      NotBelowPrefix(start, limit);
    } else if d < |start| {
      DecidedAt(limit, start, d);
    }
  }

  /** Where limit is start up to one byte, and that byte one higher, a key in between has the lower byte. */
  lemma SharesLowerByte(start: Bytes, limit: Bytes, t: Bytes, d: nat)
    requires |limit| == d + 1 && d < |start| && d < |t| && limit[d] == start[d] as int + 1
    requires start[..d] == limit[..d] && t[..d] == start[..d] && Bytewise(start, t) <= 0 && Bytewise(t, limit) < 0
    ensures t[..d + 1] == start[..d + 1]
  {
    hide Bytewise;
    BytewiseAntisymmetric(start, t);
    BytewiseAntisymmetric(t, limit);
    DecidedAt(limit, t, d);
    DecidedAt(t, start, d);
    if t[d] == limit[d] {
      assert limit == limit[..d] + [limit[d]] && t[..d + 1] == t[..d] + [t[d]];
      NotBelowPrefix(t, limit);
    }
    assert t[..d + 1] == t[..d] + [t[d]] && start[..d + 1] == start[..d] + [start[d]];
  }

  /** No key from start on and below limit is shorter than the separator. */
  lemma BytewiseSeparatorIsShortest(start: Bytes, limit: Bytes, t: Bytes)
    requires Bytewise(start, t) <= 0 && Bytewise(t, limit) < 0
    ensures |BytewiseSeparator(start, limit)| <= |t|
  {
    hide Bytewise;
    var d := CommonPrefix(start, limit);
    BelowLimit(start, t, limit);
    PrefixOfSmaller(start, limit, d);
    BetweenSharesPrefix(start, t, limit, d);
    AboveRun(start, t, d, d);
    if d < |start| && !(d < |limit| - 1 || start[d] + 1 < limit[d]) {
      SharesLowerByte(start, limit, t, d);
      AboveRun(start, t, d + 1, FirstBelow255(start, d + 1));
    }
  }

  lemma BelowLimit(a: Bytes, t: Bytes, b: Bytes)
    requires Bytewise(a, t) <= 0 && Bytewise(t, b) < 0
    ensures Bytewise(a, b) < 0
  {
    BytewiseTransitive(a, t, b);
    BytewiseAntisymmetric(a, b);
    BytewiseAntisymmetric(t, b);
    BytewiseAntisymmetric(a, t);
    BytewiseTransitive(b, a, t);
  }

  lemma NotBelowPrefix(t: Bytes, p: Bytes)
    requires |p| <= |t| && t[..|p|] == p
    ensures Bytewise(t, p) >= 0
  {
    BytewiseAntisymmetric(t, p);
    if |p| < |t| {
      DecidedAt(p, t, |p|);
    } else {
      assert t == p;
    }
  }

  /** No key from the given one on is shorter than its successor. */
  lemma BytewiseSuccessorIsShortest(key: Bytes, t: Bytes)
    requires Bytewise(key, t) <= 0
    ensures |BytewiseSuccessor(key)| <= |t|
  {
    AboveRun(key, t, 0, FirstBelow255(key, 0));
  }

  /** In the reverse order that is so except where limit is a prefix of start and start is longer by two or more. */
  lemma ReverseSeparatorIsShortest(start: Bytes, limit: Bytes)
    requires ReverseBytewise(start, limit) < 0
    ensures (forall t | ReverseBytewise(start, t) <= 0 && ReverseBytewise(t, limit) < 0 ::
               |ReverseSeparator(start, limit)| <= |t|)
            <==> !(|limit| + 1 < |start| && limit == start[..|limit|])
  {
    var s, d := ReverseSeparator(start, limit), CommonPrefix(start, limit);
    BytewiseAntisymmetric(start, limit);
    if |limit| + 1 < |start| && limit == start[..|limit|] {
      var t := start[..|limit| + 1];
      assert t[..|limit|] == limit;
      BytewiseAntisymmetric(t, limit);
      DecidedAt(limit, t, |limit|);
      NotBelowPrefix(start, t);
      PrefixEnds(start, limit, |limit|);
      assert |s| > |t|;
    } else {
      forall t | ReverseBytewise(start, t) <= 0 && ReverseBytewise(t, limit) < 0
        ensures |s| <= |t|
      {
        BytewiseAntisymmetric(start, t);
        BytewiseAntisymmetric(t, limit);
        BetweenSharesPrefix(limit, t, start, d);
        if |t| == d {
          assert t == limit[..d];
          NotBelowPrefix(limit, t);
        }
        if d < |start| && d < |limit| {
          DecidedAt(start, limit, d);
        } else if d < |limit| {
          DecidedAt(start, limit, d);
        }
      }
    }
  }

  // ----- Shortening internal keys -----

  type Separator = (Bytes, Bytes) -> Bytes

  /** What the documentation of FindShortestSeparator asks for. */
  ghost predicate IsSeparator(cmp: Comparator, sep: Separator) {
    forall a, b | cmp(a, b) < 0 :: cmp(a, sep(a, b)) <= 0 && cmp(sep(a, b), b) < 0
  }

  /** What the built-in comparators do beyond that: nothing when start is not below limit. */
  ghost predicate LeavesAlone(cmp: Comparator, sep: Separator) {
    forall a, b | cmp(a, b) >= 0 :: sep(a, b) == a
  }

  /** InternalKeyComparator::FindShortestSeparator */
  function InternalSeparator(cmp: Comparator, sep: Separator, start: Bytes, limit: Bytes): (r: Bytes)
    requires |start| >= NUM_INTERNAL_BYTES && |limit| >= NUM_INTERNAL_BYTES
    ensures |r| >= NUM_INTERNAL_BYTES
  {
    var userStart, userLimit := ExtractUserKey(start), ExtractUserKey(limit);
    var tmp := sep(userStart, userLimit);
    if |tmp| <= |userStart| && cmp(userStart, tmp) < 0
    then tmp + Footer(MAX_SEQUENCE, TYPE_FOR_SEEK)
    else start
  }

  lemma ShortenedParts(tmp: Bytes)
    ensures tmp + Footer(MAX_SEQUENCE, TYPE_FOR_SEEK) == Encode(MinPossible(tmp))
    ensures ExtractUserKey(Encode(MinPossible(tmp))) == tmp
  {
    PartsOfEncoded(MinPossible(tmp));
  }

  /** The shortened key stays between start and limit, as its asserts say. With a comparator that only does what is
      documented this needs user keys that differ. */
  lemma InternalSeparatorBetween(cmp: Comparator, sep: Separator, start: Bytes, limit: Bytes)
    requires IsComparator(cmp) && IsSeparator(cmp, sep)
    requires |start| >= NUM_INTERNAL_BYTES && |limit| >= NUM_INTERNAL_BYTES && Compare(cmp, start, limit) < 0
    requires cmp(ExtractUserKey(start), ExtractUserKey(limit)) < 0 || LeavesAlone(cmp, sep)
    ensures var r := InternalSeparator(cmp, sep, start, limit);
            && |r| <= |start| && Compare(cmp, start, r) <= 0 && Compare(cmp, r, limit) < 0
            && (r != start ==> Compare(cmp, start, r) < 0)
            && (Parse(start).Parsed? ==> Parse(r).Parsed?)
  {
    var userStart, userLimit := ExtractUserKey(start), ExtractUserKey(limit);
    var tmp := sep(userStart, userLimit);
    ShortenedParts(tmp);
    assert cmp(userStart, userStart) == 0;
    if cmp(userStart, userLimit) < 0 {
      assert cmp(userStart, tmp) <= 0 && cmp(tmp, userLimit) < 0;
    }
    if |tmp| <= |userStart| && cmp(userStart, tmp) < 0 {
      ParseUndoesAppend(MinPossible(tmp));
    }
  }

  /** InternalKeyComparator::FindShortSuccessor */
  function InternalSuccessor(cmp: Comparator, succ: Bytes -> Bytes, key: Bytes): (r: Bytes)
    requires |key| >= NUM_INTERNAL_BYTES
    ensures |r| >= NUM_INTERNAL_BYTES
  {
    var userKey := ExtractUserKey(key);
    var tmp := succ(userKey);
    if |tmp| <= |userKey| && cmp(userKey, tmp) < 0 then tmp + Footer(MAX_SEQUENCE, TYPE_FOR_SEEK) else key
  }

  /** The successor is not below the key, whatever the user comparator's is. */
  lemma InternalSuccessorIsAbove(cmp: Comparator, succ: Bytes -> Bytes, key: Bytes)
    requires IsComparator(cmp) && |key| >= NUM_INTERNAL_BYTES
    ensures var r := InternalSuccessor(cmp, succ, key);
            |r| <= |key| && Compare(cmp, key, r) <= 0 && (r != key ==> Compare(cmp, key, r) < 0)
  {
    ShortenedParts(succ(ExtractUserKey(key)));
    assert cmp(ExtractUserKey(key), ExtractUserKey(key)) == 0;
  }

  /** The bytewise comparator, end to end: shortening an internal key for an index block keeps it between. */
  lemma BytewiseInternalSeparator(start: Bytes, limit: Bytes)
    requires |start| >= NUM_INTERNAL_BYTES && |limit| >= NUM_INTERNAL_BYTES && Compare(Bytewise, start, limit) < 0
    ensures var r := InternalSeparator(Bytewise, BytewiseSeparator, start, limit);
            && |r| <= |start| && Compare(Bytewise, start, r) <= 0 && Compare(Bytewise, r, limit) < 0
            && (r != start ==> Compare(Bytewise, start, r) < 0)
  {
    BytewiseIsComparator();
    forall a, b
      ensures var s := BytewiseSeparator(a, b); Bytewise(a, b) < 0 ==> Bytewise(a, s) <= 0 && Bytewise(s, b) < 0
      ensures Bytewise(a, b) >= 0 ==> BytewiseSeparator(a, b) == a
    {
      BytewiseSeparatorBetween(a, b);
    }
    InternalSeparatorBetween(Bytewise, BytewiseSeparator, start, limit);
  }

  lemma ReverseInternalSeparator(start: Bytes, limit: Bytes)
    requires |start| >= NUM_INTERNAL_BYTES && |limit| >= NUM_INTERNAL_BYTES
             && Compare(ReverseBytewise, start, limit) < 0
    ensures var r := InternalSeparator(ReverseBytewise, ReverseSeparator, start, limit);
            && |r| <= |start| && Compare(ReverseBytewise, start, r) <= 0 && Compare(ReverseBytewise, r, limit) < 0
            && (r != start ==> Compare(ReverseBytewise, start, r) < 0)
  {
    BytewiseIsComparator();
    forall a, b
      ensures var s := ReverseSeparator(a, b);
              ReverseBytewise(a, b) < 0 ==> ReverseBytewise(a, s) <= 0 && ReverseBytewise(s, b) < 0
      ensures ReverseBytewise(a, b) >= 0 ==> ReverseSeparator(a, b) == a
    {
      ReverseSeparatorBetween(a, b);
    }
    InternalSeparatorBetween(ReverseBytewise, ReverseSeparator, start, limit);
  }
}
