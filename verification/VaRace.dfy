/** The search for a VA slot when several pages are added to an enclave at once. The scan of sgx_init_page takes no
    lock, and finding a zero bit and setting it are two steps; only giving a slot back happens under a lock. */
module VaRaces {
  import opened VaSlots

  type Adder = nat
  datatype Slot = Slot(page: nat, index: nat)

  datatype Pc =
    | Idle
    | Found(slot: Slot)      // find_first_zero_bit has returned, the bit is not set yet
    | Has(slot: Slot)

  /** The bitmaps of the enclave's VA pages as one set of taken slots. */
  datatype State = State(pages: nat, taken: set<Slot>, adders: map<Adder, Pc>)

  datatype Event =
    | Find(a: Adder, page: nat)
    | SetBit(a: Adder)
    | NewPage(a: Adder)
    | Free(a: Adder)

  predicate FirstZero(s: State, slot: Slot) {
    && slot.page < s.pages && slot.index < SLOT_COUNT && slot !in s.taken
    && forall i | 0 <= i < slot.index :: Slot(slot.page, i) in s.taken
  }

  predicate Full(s: State, page: nat) {
    forall i | 0 <= i < SLOT_COUNT :: Slot(page, i) in s.taken
  }

  ghost predicate Init(s: State) {
    s.pages == 0 && s.taken == {} && forall a | a in s.adders :: s.adders[a].Idle?
  }

  predicate Enabled(s: State, e: Event) {
    && e.a in s.adders
    && match e
       case Find(a, page) => s.adders[a].Idle? && page < s.pages && !Full(s, page)
       case SetBit(a) => s.adders[a].Found?
       case NewPage(a) => s.adders[a].Idle?
       case Free(a) => s.adders[a].Has?
  }

  /** The first zero bit of a page that is not full. */
  function FirstFree(s: State, page: nat, i: nat): (slot: Slot)
    requires page < s.pages && i <= SLOT_COUNT && !Full(s, page)
    requires forall k | 0 <= k < i :: Slot(page, k) in s.taken
    ensures FirstZero(s, slot) && slot.page == page
    decreases SLOT_COUNT - i
  {
    if i < SLOT_COUNT && Slot(page, i) in s.taken then FirstFree(s, page, i + 1) else Slot(page, i)
  }

  function Apply(s: State, e: Event): State
    requires Enabled(s, e)
  {
    match e
    case Find(a, page) => s.(adders := s.adders[a := Found(FirstFree(s, page, 0))])
    case SetBit(a) =>
      var slot := s.adders[a].slot;
      s.(taken := s.taken + {slot}, adders := s.adders[a := Has(slot)])
    // A new page is filled in before it is put on the enclave's list.
    case NewPage(a) =>
      var slot := Slot(s.pages, 0);
      State(s.pages + 1, s.taken + {slot}, s.adders[a := Has(slot)])
    case Free(a) => s.(taken := s.taken - {s.adders[a].slot}, adders := s.adders[a := Idle])
  }

  ghost predicate Run(s: State, events: seq<Event>, s': State)
    decreases |events|
  {
    if events == [] then s == s' else Enabled(s, events[0]) && Run(Apply(s, events[0]), events[1..], s')
  }

  /** Two pages of the enclave have the same VA slot. */
  predicate Shares(s: State, a: Adder, b: Adder) {
    a != b && a in s.adders && b in s.adders && s.adders[a].Has? && s.adders[b] == s.adders[a]
  }

  ghost predicate Unique(s: State) {
    forall a, b :: !Shares(s, a, b)
  }

  /** A set_bit on a bit that is already set. */
  predicate SetsAgain(s: State, e: Event) {
    e.SetBit? && e.a in s.adders && s.adders[e.a].Found? && s.adders[e.a].slot in s.taken
  }

  /** No slot is shared, and the bits that are set are those of the slots in use. */
  ghost predicate Exact(s: State) {
    && Unique(s)
    && (forall a | a in s.adders && s.adders[a].Has? :: s.adders[a].slot in s.taken)
    && (forall a | a in s.adders && s.adders[a].Found? :: s.adders[a].slot.page < s.pages)
    && (forall slot | slot in s.taken :: slot.page < s.pages && exists a :: a in s.adders && s.adders[a] == Has(slot))
  }

  lemma InitIsExact(s: State)
    requires Init(s)
    ensures Exact(s)
  {
  }

  /** Up to the first such step no slot is shared; that step shares one at once. */
  lemma StepShares(s: State, e: Event)
    requires Exact(s) && Enabled(s, e)
    ensures if SetsAgain(s, e) then !Unique(Apply(s, e)) else Exact(Apply(s, e))
  {
    var s' := Apply(s, e);
    if SetsAgain(s, e) {
      var b :| b in s.adders && s.adders[b] == Has(s.adders[e.a].slot);
      assert Shares(s', e.a, b);
    } else {
      forall a | a in s'.adders && s'.adders[a].Has?
        ensures s'.adders[a].slot in s'.taken
      {
        assert !Shares(s, a, e.a);
      }
      forall slot | slot in s'.taken
        ensures slot.page < s'.pages && exists a :: a in s'.adders && s'.adders[a] == Has(slot)
      {
        if slot in s.taken {
          var a :| a in s.adders && s.adders[a] == Has(slot);
          assert s'.adders[a] == Has(slot);
        } else {
          assert s'.adders[e.a] == Has(slot);
        }
      }
      forall a, b
        ensures !Shares(s', a, b)
      {
        assert !Shares(s, a, b);
      }
    }
  }

  /** A shared slot: in some state of the run. */
  ghost predicate SharesWithin(s: State, events: seq<Event>)
    decreases |events|
  {
    !Unique(s) || (events != [] && Enabled(s, events[0]) && SharesWithin(Apply(s, events[0]), events[1..]))
  }

  ghost predicate SetsAgainWithin(s: State, events: seq<Event>)
    decreases |events|
  {
    && events != [] && Enabled(s, events[0])
    && (SetsAgain(s, events[0]) || SetsAgainWithin(Apply(s, events[0]), events[1..]))
  }

  /** In a run two pages get the same slot if and only if some set_bit of the run finds its bit set
      already, which a test_and_set_bit would see. */
  lemma {:induction false} SharedExactly(s: State, events: seq<Event>, s': State)
    requires Exact(s) && Run(s, events, s')
    ensures SharesWithin(s, events) <==> SetsAgainWithin(s, events)
    decreases |events|
  {
    if events != [] {
      StepShares(s, events[0]);
      if !SetsAgain(s, events[0]) {
        SharedExactly(Apply(s, events[0]), events[1..], s');
      }
    }
  }

  /** Scans one at a time, as under a lock: at no point of the run have two adders found a bit and not set it yet. */
  ghost predicate OneScan(s: State) {
    forall a, b | a in s.adders && b in s.adders && s.adders[a].Found? && s.adders[b].Found? :: a == b
  }

  ghost predicate Serialized(s: State, events: seq<Event>)
    decreases |events|
  {
    OneScan(s) && (events != [] && Enabled(s, events[0]) ==> Serialized(Apply(s, events[0]), events[1..]))
  }

  /** A bit that has been found is still zero. */
  ghost predicate Due(s: State) {
    forall a | a in s.adders && s.adders[a].Found? :: s.adders[a].slot !in s.taken
  }

  /** Serialized scans never share a slot. */
  lemma {:induction false} SerializedNeverShares(s: State, events: seq<Event>, s': State)
    requires Exact(s) && Due(s) && Run(s, events, s') && Serialized(s, events)
    ensures !SharesWithin(s, events) && Exact(s')
    decreases |events|
  {
    if events != [] {
      StepShares(s, events[0]);
      assert Due(Apply(s, events[0]));
      SerializedNeverShares(Apply(s, events[0]), events[1..], s');
    }
  }

  /** Main result, from the start: in every run two pages get the same slot if and only if some set_bit finds its bit
      set already, and none do when the scans do not overlap. */
  lemma SharedFromStart(s0: State, events: seq<Event>, s: State)
    requires Init(s0) && Run(s0, events, s)
    ensures SharesWithin(s0, events) <==> SetsAgainWithin(s0, events)
    ensures Serialized(s0, events) ==> !SharesWithin(s0, events)
  {
    InitIsExact(s0);
    SharedExactly(s0, events, s);
    if Serialized(s0, events) {
      SerializedNeverShares(s0, events, s);
    }
  }

  /** Two set_bit steps that are due lead to a shared slot if and only if both adders have found the same bit. */
  lemma OverlapShares(s: State, a: Adder, b: Adder)
    requires Exact(s) && a in s.adders && b in s.adders && a != b && s.adders[a].Found? && s.adders[b].Found?
    requires s.adders[a].slot !in s.taken && s.adders[b].slot !in s.taken
    ensures Enabled(s, SetBit(a)) && Enabled(Apply(s, SetBit(a)), SetBit(b))
    ensures Unique(Apply(Apply(s, SetBit(a)), SetBit(b))) <==> s.adders[a] != s.adders[b]
  {
    var s1 := Apply(s, SetBit(a));
    StepShares(s, SetBit(a));
    StepShares(s1, SetBit(b));
  }

  /** Two adders whose scans overlap: both find the first bit of the page that holds the SECS's slot. */
  lemma TwoAddersShare(s0: State) returns (events: seq<Event>, s: State)
    requires Init(s0) && s0.adders == map[0 := Idle, 1 := Idle, 2 := Idle]
    ensures Run(s0, events, s) && Shares(s, 1, 2) && s.adders[1] == Has(Slot(0, 1))
  {
    var s1 := Apply(s0, NewPage(0));
    assert !Full(s1, 0) by {
      assert Slot(0, 1) !in s1.taken;
    }
    var s2 := Apply(s1, Find(1, 0));
    assert s2.adders[1] == Found(Slot(0, 1));
    assert !Full(s2, 0) by {
      assert Slot(0, 1) !in s2.taken;
    }
    var s3 := Apply(s2, Find(2, 0));
    assert s3.adders[2] == Found(Slot(0, 1));
    var s4 := Apply(s3, SetBit(1));
    s := Apply(s4, SetBit(2));
    events := [NewPage(0), Find(1, 0), Find(2, 0), SetBit(1), SetBit(2)];
    assert events[1..] == [Find(1, 0), Find(2, 0), SetBit(1), SetBit(2)];
    assert events[1..][1..] == [Find(2, 0), SetBit(1), SetBit(2)];
    assert events[1..][1..][1..] == [SetBit(1), SetBit(2)];
    assert events[1..][1..][1..][1..] == [SetBit(2)];
    assert [SetBit(2)][1..] == [];
    assert Run(s4, [SetBit(2)], s);
    assert Run(s3, [SetBit(1), SetBit(2)], s);
    assert Run(s2, [Find(2, 0), SetBit(1), SetBit(2)], s);
    assert Run(s1, events[1..], s);
  }
}
