/** EvictFromCache of the clock cache, run under the mutex while no lookup or release interferes: the sweep of the
    clock hand over the circular list of handles. */
module ClockEviction {
  import opened Counting

  /** What the sweep looks at in a cache handle. */
  datatype Entry = Entry(inCache: bool, usage: bool, refs: nat, charge: nat) {
    predicate Evictable() {
      inCache && refs == 0
    }

    /** The handle still occupies the cache. */
    function Charge(): nat {
      if inCache || refs > 0 then charge else 0
    }
  }

  function Sum(ws: seq<nat>): nat {
    if ws == [] then 0 else ws[0] + Sum(ws[1..])
  }

  function Charges(es: seq<Entry>): (ws: seq<nat>)
    ensures |ws| == |es|
  {
    seq(|es|, i requires 0 <= i < |es| => es[i].Charge())
  }

  /** The charges that stay whatever is evicted. */
  function ReferencedCharges(es: seq<Entry>): (ws: seq<nat>)
    ensures |ws| == |es|
  {
    seq(|es|, i requires 0 <= i < |es| => if es[i].refs > 0 then es[i].charge else 0)
  }

  /** The charges still there when the hand reaches entry `last` for the second time: if that entry has been used
      it has only lost its usage bit so far. */
  function ChargesBeforeLastVisit(es: seq<Entry>, last: nat): (ws: seq<nat>)
    ensures |ws| == |es|
  {
    seq(|es|, i requires 0 <= i < |es| =>
      if es[i].refs > 0 || (i == last && es[i].inCache && es[i].usage) then es[i].charge else 0)
  }

  /** TryEvict: an unused entry is evicted, any other one loses its usage bit. */
  function Visited(e: Entry): Entry {
    if e.inCache && !e.usage && e.refs == 0 then e.(inCache := false) else e.(usage := false)
  }

  /** An entry after the hand has passed it `visits` times. */
  function Aged(e: Entry, visits: nat): Entry {
    if visits == 0 then e else Visited(Aged(e, visits - 1))
  }

  /** How often the hand has passed entry `i`: once for each finished lap, and once in this lap if it is between
      the start and the hand. */
  function Visits(i: nat, head: nat, hand: nat, secondLap: bool): nat {
    Bit(secondLap) + Bit(if head <= hand then head <= i < hand else head <= i || i < hand)
  }

  /** The entry the hand reaches last in a lap that starts at `head`. */
  function LastOfLap(head: nat, n: nat): nat
    requires head < n
  {
    if head == 0 then n - 1 else head - 1
  }

  lemma {:induction false} SumUpdate(ws: seq<nat>, i: nat, w: nat)
    requires i < |ws|
    ensures Sum(ws[i := w]) + ws[i] == Sum(ws) + w
  {
    if i > 0 {
      SumUpdate(ws[1..], i - 1, w);
      assert ws[i := w][1..] == ws[1..][i - 1 := w];
    } else {
      assert ws[0 := w][1..] == ws[1..];
    }
  }

  lemma {:induction false} SumMonotone(a: seq<nat>, b: seq<nat>)
    requires |a| == |b| && forall i | 0 <= i < |a| :: a[i] <= b[i]
    ensures Sum(a) <= Sum(b)
  {
    if a != [] {
      SumMonotone(a[1..], b[1..]);
    }
  }

  lemma SumPositive(ws: seq<nat>)
    requires Sum(ws) > 0
    ensures ws != []
  {
  }

  lemma AgedEntry(e: Entry)
    ensures Aged(e, 1) == Visited(e) && Aged(e, 2) == Visited(Visited(e))
    ensures Aged(e, 2).inCache ==> e.refs > 0
    ensures Aged(e, 2).Charge() == if e.refs > 0 then e.charge else 0
    ensures Aged(e, 1).Charge() == if e.refs > 0 || (e.inCache && e.usage) then e.charge else 0
  {
    assert Aged(e, 0) == e;
    assert Aged(e, 1) == Visited(e);
  }

  /** An entry after some visits is as it was, has lost its usage bit, or has been evicted without references. */
  predicate OnlyEvicted(e: Entry, e': Entry) {
    e' == e || e' == e.(usage := false) || (e.Evictable() && e' == e.(inCache := false, usage := false))
  }

  /** The hand started at `head` with the entries `was`, has come to `hand` and left `es`. */
  predicate Swept(was: seq<Entry>, es: seq<Entry>, head: nat, hand: nat, secondLap: bool) {
    && head < |was| == |es| && hand < |es|
    && forall i | 0 <= i < |es| :: es[i] == Aged(was[i], Visits(i, head, hand, secondLap))
  }

  function Next(hand: nat, n: nat): nat {
    if hand + 1 >= n then 0 else hand + 1
  }

  /** Where the hand is after `n` visits. */
  function HandAfter(head: nat, n: nat, length: nat): (hand: nat)
    requires head < length
    ensures hand < length
  {
    if n == 0 then head else Next(HandAfter(head, n - 1, length), length)
  }

  /** What the list is after `n` visits, each of the entry under the hand. */
  function AfterVisits(es: seq<Entry>, head: nat, n: nat): (r: seq<Entry>)
    requires head < |es|
    ensures |r| == |es|
  {
    if n == 0 then es
    else
      var before, hand := AfterVisits(es, head, n - 1), HandAfter(head, n - 1, |es|);
      before[hand := Visited(before[hand])]
  }

  /** Whether `charge` fits after `n` visits. */
  predicate FitsAfter(es: seq<Entry>, head: nat, n: nat, charge: nat, capacity: nat)
    requires head < |es|
  {
    Sum(Charges(AfterVisits(es, head, n))) + charge <= capacity
  }

  lemma SweepStep(was: seq<Entry>, es: seq<Entry>, head: nat, hand: nat, secondLap: bool)
    requires Swept(was, es, head, hand, secondLap)
    ensures var hand', es' := Next(hand, |es|), es[hand := Visited(es[hand])];
            && (hand' != head ==> Swept(was, es', head, hand', secondLap))
            && (hand' == head ==> hand == LastOfLap(head, |es|))
            && (hand' == head && !secondLap ==> Swept(was, es', head, hand', true))
            && (hand' == head && secondLap ==> forall i | 0 <= i < |es| :: es'[i] == Aged(was[i], 2))
            && (hand' == head && secondLap
                ==> forall i | 0 <= i < |es| :: es[i] == Aged(was[i], if i == hand then 1 else 2))
  {
  }

  /** How far the hand has come after `n` visits. */
  lemma {:induction false} HandPosition(head: nat, n: nat, length: nat)
    requires head < length && n < 2 * length
    ensures var hand := HandAfter(head, n, length);
            n == (if n >= length then length else 0) + (if hand >= head then hand - head else length - head + hand)
  {
    if n > 0 {
      HandPosition(head, n - 1, length);
    }
  }

  /** Fewer than two laps of visits, entry by entry. */
  lemma {:induction false} SweptAfterVisits(was: seq<Entry>, head: nat, n: nat)
    requires head < |was| && n < 2 * |was|
    ensures Swept(was, AfterVisits(was, head, n), head, HandAfter(head, n, |was|), n >= |was|)
  {
    hide Swept, Visited;
    HandPosition(head, n, |was|);
    if n == 0 {
      NothingSwept(was, head);
    } else {
      SweptAfterVisits(was, head, n - 1);
      HandPosition(head, n - 1, |was|);
      SweepStep(was, AfterVisits(was, head, n - 1), head, HandAfter(head, n - 1, |was|), n - 1 >= |was|);
    }
  }

  lemma NothingSwept(was: seq<Entry>, head: nat)
    requires head < |was|
    ensures Swept(was, was, head, head, false)
  {
  }

  /** Both laps: only what is referenced is left, and this is how it was before the last visit. */
  lemma TwoLaps(was: seq<Entry>, head: nat)
    requires head < |was|
    ensures var last, es := 2 * |was| - 1, AfterVisits(was, head, 2 * |was|);
            && Charges(AfterVisits(was, head, last)) == ChargesBeforeLastVisit(was, LastOfLap(head, |was|))
            && Charges(es) == ReferencedCharges(was)
            && forall i | 0 <= i < |es| :: OnlyEvicted(was[i], es[i]) && (es[i].inCache ==> es[i].refs > 0)
  {
    hide Swept, Visited, Visits, OnlyEvicted;
    var n := 2 * |was| - 1;
    var before := AfterVisits(was, head, n);
    SweptAfterVisits(was, head, n);
    HandPosition(head, n, |was|);
    SweepStep(was, before, head, HandAfter(head, n, |was|), true);
    LastVisit(was, before, LastOfLap(head, |was|));
    AfterTwoLaps(was, AfterVisits(was, head, n + 1));
  }

  lemma LastVisit(was: seq<Entry>, es: seq<Entry>, last: nat)
    requires last < |was| == |es|
    requires forall i | 0 <= i < |es| :: es[i] == Aged(was[i], if i == last then 1 else 2)
    ensures Charges(es) == ChargesBeforeLastVisit(was, last)
  {
    forall i | 0 <= i < |es|
      ensures Charges(es)[i] == ChargesBeforeLastVisit(was, last)[i]
    {
      AgedEntry(was[i]);
    }
  }

  lemma AfterTwoLaps(was: seq<Entry>, es: seq<Entry>)
    requires |was| == |es|
    requires forall i | 0 <= i < |es| :: es[i] == Aged(was[i], 2)
    ensures Charges(es) == ReferencedCharges(was)
    ensures forall i | 0 <= i < |es| :: OnlyEvicted(was[i], es[i]) && (es[i].inCache ==> es[i].refs > 0)
  {
    forall i | 0 <= i < |es|
      ensures Charges(es)[i] == ReferencedCharges(was)[i] && OnlyEvicted(was[i], es[i])
      ensures es[i].inCache ==> es[i].refs > 0
    {
      AgedEntry(was[i]);
    }
  }

  /** Before its last visit the hand has left at least what it leaves then. */
  lemma StoppedEarly(was: seq<Entry>, es: seq<Entry>, head: nat, hand: nat, secondLap: bool)
    requires Swept(was, es, head, hand, secondLap)
    ensures forall i | 0 <= i < |es| :: OnlyEvicted(was[i], es[i])
    ensures Sum(ChargesBeforeLastVisit(was, LastOfLap(head, |was|))) <= Sum(Charges(es))
  {
    var last := LastOfLap(head, |was|);
    forall i | 0 <= i < |es|
      ensures ChargesBeforeLastVisit(was, last)[i] <= Charges(es)[i] && OnlyEvicted(was[i], es[i])
    {
      AgedEntry(was[i]);
    }
    SumMonotone(ChargesBeforeLastVisit(was, last), Charges(es));
  }

  /** The answer can be no although what is left leaves room: exactly when the last entry of the lap was used and
      unreferenced, and its charge makes the difference. */
  lemma NoDespiteRoom(es: seq<Entry>, last: nat, charge: nat, capacity: nat)
    requires last < |es|
    ensures var e := es[last];
            (Sum(ReferencedCharges(es)) + charge <= capacity < Sum(ChargesBeforeLastVisit(es, last)) + charge)
            <==> (&& e.Evictable() && e.usage
                  && Sum(ReferencedCharges(es)) + charge <= capacity < Sum(ReferencedCharges(es)) + e.charge + charge)
  {
    var a, b := ReferencedCharges(es), ChargesBeforeLastVisit(es, last);
    assert b == a[last := b[last]];
    SumUpdate(a, last, b[last]);
  }

  /** The smallest case: one used entry fills the cache. It is evicted, yet the answer is no. */
  method OneUsedEntry() returns (c: ClockList, ok: bool)
    ensures fresh(c) && c.Valid()
    ensures !ok && c.usage + 1 <= c.capacity
  {
    c := new ClockList(1);
    c.list, c.usage := [Entry(true, true, 0, 1)], 1;
    assert Charges(c.list) == [1] && [1][1..] == [] && Sum([1]) == 1;
    ghost var visits;
    ok, visits := c.EvictFromCache(1);
    NoDespiteRoom([Entry(true, true, 0, 1)], 0, 1, 1);
    assert ReferencedCharges([Entry(true, true, 0, 1)]) == [0];
  }

  class ClockList {
    var list: seq<Entry>
    var head: nat
    var usage: nat
    var capacity: nat
    var recycle: seq<nat>

    /** usage_ sums the charges of the handles that are in the cache or referenced; the bin has the others once. */
    ghost predicate Valid()
      reads this
    {
      && usage == Sum(Charges(list))
      && (head < |list| || (head == 0 && list == []))
      && forall i | 0 <= i < |list| :: multiset(recycle)[i] == Bit(!list[i].inCache && list[i].refs == 0)
    }

    constructor (capacity: nat)
      ensures Valid() && list == [] && recycle == [] && head == 0 && this.capacity == capacity
    {
      list, head, usage, this.capacity, recycle := [], 0, 0, capacity, [];
    }

    /** True when the entry was evicted. */
    method TryEvict(x: nat) returns (evicted: bool)
      requires Valid() && x < |list|
      modifies this`list, this`usage, this`recycle
      ensures Valid()
      ensures list == old(list)[x := Visited(old(list[x]))]
      ensures evicted <==> old(list[x]).inCache && !list[x].inCache
      ensures !evicted ==> usage == old(usage)
    {
      var e := list[x];
      ghost var before := Charges(list);
      list := list[x := Visited(e)];
      evicted := e.inCache && !e.usage && e.refs == 0;
      assert Charges(list) == before[x := list[x].Charge()];
      SumUpdate(before, x, list[x].Charge());
      if evicted {
        recycle := recycle + [x];
        usage := usage - e.charge;
      }
    }

    /** Makes room for `charge`. From nonzero usage the answer is exact: yes if and only if what remains just before
        the very last visit leaves room. A no means that everything not referenced has been evicted. */
    method EvictFromCache(charge: nat) returns (ok: bool, ghost visits: nat)
      requires Valid()
      modifies this`list, this`usage, this`recycle, this`head
      ensures Valid()
      // The hand visits one entry after the other until the charge fits, and none after that; it stays where it got to.
      ensures old(usage) != 0 ==>
                && old(list) != [] && list == AfterVisits(old(list), old(head), visits)
                && (forall n | 0 <= n < visits :: !FitsAfter(old(list), old(head), n, charge, capacity))
                && if ok then
                     && visits < 2 * |list| && FitsAfter(old(list), old(head), visits, charge, capacity)
                     && head == HandAfter(old(head), visits, |list|)
                   else visits == 2 * |list|
      ensures |list| == |old(list)|
      // Only entries without references are evicted, and only usage bits are cleared otherwise.
      ensures forall i | 0 <= i < |list| :: OnlyEvicted(old(list)[i], list[i])
      ensures ok ==> usage + charge <= capacity
      ensures !ok ==> head == old(head)
      ensures !ok && old(usage) != 0 ==> forall i | 0 <= i < |list| :: list[i].inCache ==> list[i].refs > 0
      ensures !ok && old(usage) != 0 ==> usage == Sum(ReferencedCharges(old(list)))
      ensures old(usage) == 0 ==> (ok <==> charge <= capacity) && list == old(list)
      ensures old(usage) != 0 ==>
                (ok <==> Sum(ChargesBeforeLastVisit(old(list), LastOfLap(old(head), |old(list)|))) + charge <= capacity)
    {
      hide Valid, Sum, Charges, ReferencedCharges, ChargesBeforeLastVisit, OnlyEvicted, Visited, AfterVisits, HandAfter;
      if usage == 0 {
        SweptNothing();
        return charge <= capacity, 0;
      }
      UsedIsNotEmpty();
      UsageIs();
      ghost var was := list;
      var hand;
      ok, hand, visits := Sweep(charge);
      if ok {
        SweptAfterVisits(was, head, visits);
        StoppedEarly(was, list, head, hand, visits >= |was|);
        UsageIs();
        MoveHand(hand);
      } else {
        TwoLaps(was, head);
        assert !FitsAfter(was, head, visits - 1, charge, capacity);
        UsageIs();
      }
    }

    /** The loop of EvictFromCache. */
    method Sweep(charge: nat) returns (ok: bool, hand: nat, ghost visits: nat)
      requires Valid() && list != []
      modifies this`list, this`usage, this`recycle
      ensures Valid() && |list| == |old(list)| && list == AfterVisits(old(list), head, visits)
      ensures hand == HandAfter(head, visits, |list|)
      ensures forall n | 0 <= n < visits :: !FitsAfter(old(list), head, n, charge, capacity)
      ensures if ok then visits < 2 * |list| && FitsAfter(old(list), head, visits, charge, capacity)
              else visits == 2 * |list|
    {
      hide Sum, Charges, Visited;
      ghost var was := list;
      visits := 0;
      hand := head;
      var secondLap := false;
      while usage + charge > capacity
        invariant Valid() && head == old(head) && list == AfterVisits(was, head, visits)
        invariant hand == HandAfter(head, visits, |was|) && visits < 2 * |was| && (secondLap <==> visits >= |was|)
        invariant forall n | 0 <= n < visits :: !FitsAfter(was, head, n, charge, capacity)
        decreases 2 * |was| - visits
      {
        HandPosition(head, visits, |was|);
        var _ := TryEvict(hand);
        hand, visits := Next(hand, |list|), visits + 1;
        if hand == head {
          if secondLap {
            return false, hand, visits;
          }
          secondLap := true;
        }
      }
      return true, hand, visits;
    }

    method MoveHand(hand: nat)
      requires Valid() && hand < |list|
      modifies this`head
      ensures Valid() && head == hand
    {
      head := hand;
    }

    lemma UsageIs()
      requires Valid()
      ensures usage == Sum(Charges(list)) && (list != [] ==> head < |list|)
    {
    }

    lemma SweptNothing()
      requires Valid()
      ensures forall i | 0 <= i < |list| :: OnlyEvicted(list[i], list[i])
    {
    }

    lemma UsedIsNotEmpty()
      requires Valid() && usage > 0
      ensures list != []
    {
      SumPositive(Charges(list));
    }
  }
}
