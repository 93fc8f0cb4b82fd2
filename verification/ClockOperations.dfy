/** What lookups, inserts, erases and releases of the clock cache get done. */
module ClockOperations {
  import opened Wrappers
  import opened Counting
  import opened ClockCache

  // ----- What a lookup finds -----

  ghost predicate ByOthers(events: seq<Event>, a: Agent) {
    forall i | 0 <= i < |events| :: events[i].a != a
  }

  lemma {:induction false} PositionStays(s: State, events: seq<Event>, s': State, a: Agent)
    requires Inv(s) && Run(s, events, s') && a in s.agents && ByOthers(events, a)
    ensures Inv(s') && a in s'.agents && s'.agents[a] == s.agents[a] && |s.list| <= |s'.list|
    decreases |events|
  {
    hide Inv, Enabled, Violates, Apply;
    if events != [] {
      StepKeepsInv(s, events[0]);
      AgentsAfterStep(s, events[0]);
      ListOnlyGrows(s, events[0]);
      PositionStays(Apply(s, events[0]), events[1..], s', a);
    }
  }

  /** A handle keeps its contents while an agent holds a reference to it. */
  lemma {:induction false} ReferencedStays(s: State, events: seq<Event>, s': State, a: Agent)
    requires Inv(s) && Run(s, events, s') && a in s.agents && s.agents[a].Checking? && ByOthers(events, a)
    ensures Has(s, s.agents[a].h) && ContentsKept(s, s', s.agents[a].h)
    decreases |events|
  {
    ShareFacts(s, a);
    if events != [] {
      var e, x := events[0], s.agents[a].h;
      ShareFacts(s, e.a);
      ContentsAfterStep(s, e, x);
      StepKeepsInv(s, e);
      AgentsAfterStep(s, e);
      ReferencedStays(Apply(s, e), events[1..], s', a);
    }
  }

  /** A lookup for `k`, whatever the others do between its steps. It misses at once if and only if the table does not
      list the key. Otherwise let `s1` be the state when it tries to reference the handle it read from the table: it
      misses then if and only if that handle is no longer in the cache, and ends up with the handle if and only if
      that still carries the key. */
  lemma LookupHits(s: State, a: Agent, k: Key, before: seq<Event>, s1: State, after: seq<Event>, s2: State)
    requires Inv(s) && a in s.agents && s.agents[a].Idle?
    requires k in s.table ==> Run(Apply(s, TableFind(a, k)), before, s1) && ByOthers(before, a)
    ensures Enabled(s, TableFind(a, k)) && !Violates(s, TableFind(a, k))
    ensures k !in s.table ==> Apply(s, TableFind(a, k)) == s
    ensures k in s.table ==>
              var x := s.table[k];
              && Has(s1, x) && (Enabled(s1, RefSuccess(a)) <==> s1.list[x].inCache)
              && (Enabled(s1, RefFailure(a)) <==> !s1.list[x].inCache)
              && (s1.list[x].inCache && ByOthers(after, a) && Run(Apply(s1, RefSuccess(a)), after, s2) ==>
                    && s1.list[x].value.Some? && Enabled(s2, CheckKey(a)) && !Violates(s2, CheckKey(a))
                    && Apply(s2, CheckKey(a)).agents[a]
                       == if s1.list[x].key == Some(k) then Holding(k, x, s1.list[x].value.value) else Mismatch(x))
  {
    hide Inv, Run;
    var e := TableFind(a, k);
    StepKeepsInv(s, e);
    if k in s.table {
      var x := s.table[k];
      PositionStays(Apply(s, e), before, s1, a);
      FoundIsThere(s1, a);
      if s1.list[x].inCache && ByOthers(after, a) && Run(Apply(s1, RefSuccess(a)), after, s2) {
        StepKeepsInv(s1, RefSuccess(a));
        PositionStays(Apply(s1, RefSuccess(a)), after, s2, a);
        ReferencedStays(Apply(s1, RefSuccess(a)), after, s2, a);
      }
    } else {
      assert s.agents[a := Idle] == s.agents;
    }
  }

  lemma FoundIsThere(s: State, a: Agent)
    requires Inv(s) && a in s.agents && s.agents[a].Found?
    ensures Has(s, s.agents[a].h) && HandleOk(s, s.agents[a].h)
  {
    assert AgentOk(s, a, s.agents[a]);
  }

  /** In particular, undisturbed it finds what the table lists. */
  lemma UndisturbedLookup(s: State, a: Agent, k: Key)
    requires Inv(s) && a in s.agents && s.agents[a].Idle? && s.mutex.None? && k in s.table
    ensures Has(s, s.table[k]) && s.list[s.table[k]].value.Some?
    ensures var s1 := Apply(s, TableFind(a, k));
            && Run(s, [TableFind(a, k), RefSuccess(a), CheckKey(a)], Apply(Apply(s1, RefSuccess(a)), CheckKey(a)))
            && Apply(Apply(s1, RefSuccess(a)), CheckKey(a)).agents[a]
               == Holding(k, s.table[k], s.list[s.table[k]].value.value)
  {
    hide Inv;
    StepKeepsInv(s, TableFind(a, k));
    var s1 := Apply(s, TableFind(a, k));
    ListedIsCached(s, k);
    LookupHits(s, a, k, [], s1, [], Apply(s1, RefSuccess(a)));
    var s2 := Apply(s1, RefSuccess(a));
    StepKeepsInv(s1, RefSuccess(a));
    assert [CheckKey(a)][1..] == [] && [RefSuccess(a), CheckKey(a)][1..] == [CheckKey(a)];
    assert Run(s2, [CheckKey(a)], Apply(s2, CheckKey(a)));
    assert [TableFind(a, k), RefSuccess(a), CheckKey(a)][1..] == [RefSuccess(a), CheckKey(a)];
    assert Run(s1, [RefSuccess(a), CheckKey(a)], Apply(s2, CheckKey(a)));
  }

  lemma ListedIsCached(s: State, k: Key)
    requires Inv(s) && s.mutex.None? && k in s.table
    ensures var x := s.table[k]; Has(s, x) && s.list[x].inCache && s.list[x].key == Some(k) && s.list[x].value.Some?
  {
    assert TableOk(s, k);
    assert HandleOk(s, s.table[k]);
  }

  // ----- What the operations get done -----

  ghost predicate OnlyBy(events: seq<Event>, a: Agent) {
    forall i | 0 <= i < |events| :: events[i].a == a
  }

  /** A run of agent `a` alone, with one more step. */
  lemma OneMore(s0: State, events: seq<Event>, s: State, e: Event, a: Agent) returns (events': seq<Event>)
    requires Run(s0, events, s) && OnlyBy(events, a) && Inv(s) && Enabled(s, e) && e.a == a
    ensures !Violates(s, e) && Inv(Apply(s, e)) && Run(s0, events', Apply(s, e)) && OnlyBy(events', a)
  {
    hide Inv;
    StepKeepsInv(s, e);
    events' := events + [e];
    RunOneMore(s0, events, s, e);
  }

  lemma {:induction false} RunOneMore(s0: State, events: seq<Event>, s: State, e: Event)
    requires Run(s0, events, s) && Enabled(s, e) && !Violates(s, e)
    ensures Run(s0, events + [e], Apply(s, e))
    decreases |events|
  {
    hide Enabled, Violates, Apply;
    if events == [] {
      assert [e][1..] == [];
    } else {
      RunOneMore(Apply(s0, events[0]), events[1..], s, e);
      assert (events + [e])[1..] == events[1..] + [e];
    }
  }

  /** Nothing is left running and no handle but the given ones has changed. */
  ghost predicate OthersKept(s: State, s': State, xs: set<HandleId>) {
    && |s.list| <= |s'.list|
    && forall x | 0 <= x < |s.list| && x !in xs :: s'.list[x] == s.list[x]
  }

  // Erase

  lemma AfterEraseLock(s: State, a: Agent, k: Key)
    requires Enabled(s, EraseLock(a, k))
    ensures var s' := Apply(s, EraseLock(a, k));
            if k in s.table
            then && s'.agents == s.agents[a := Erasing(s.table[k])] && s'.table == s.table - {k} && s'.list == s.list
                 && s'.mutex == Some(a) && s'.deleted == s.deleted
            else s' == s
  {
  }

  lemma AfterEraseUnset(s: State, a: Agent)
    requires Enabled(s, EraseUnset(a)) && s.list[s.agents[a].h].inCache && s.agents[a].Erasing?
    ensures var s', x := Apply(s, EraseUnset(a)), s.agents[a].h;
            && Has(s, x) && s'.list == s.list[x := s.list[x].(inCache := false)]
            && s'.table == s.table && s'.deleted == s.deleted
            && if s.list[x].refs == 0 then s'.agents == s.agents[a := EraseRecycle(x)] && s'.mutex == s.mutex
               else s'.agents == s.agents[a := Idle] && s'.mutex.None?
  {
  }

  lemma AfterEraseRecycle(s: State, a: Agent)
    requires Enabled(s, RecycleLocked(a)) && !Violates(s, RecycleLocked(a)) && s.agents[a].EraseRecycle?
    ensures var s', x := Apply(s, RecycleLocked(a)), s.agents[a].h;
            && Has(s, x) && s.list[x].value.Some?
            && s'.list == s.list[x := s.list[x].(key := None, value := None)]
            && s'.table == s.table && s'.deleted == s.deleted + {s.list[x].value.value}
            && s'.agents == s.agents[a := Idle] && s'.mutex.None?
  {
  }

  /** An erase takes exactly the key out of the table and the entry out of the cache; its value is deleted at once if
      nobody refers to it, and stays with those who do otherwise. */
  lemma EraseCompletes(s: State, a: Agent, k: Key) returns (events: seq<Event>, s': State)
    requires Inv(s) && a in s.agents && s.agents[a].Idle? && s.mutex.None? && k in s.table
    ensures Run(s, events, s') && OnlyBy(events, a) && Inv(s')
    ensures s'.agents == s.agents && s'.mutex.None? && s'.table == s.table - {k} && OthersKept(s, s', {s.table[k]})
    ensures Has(s, s.table[k]) && Has(s', s.table[k]) && !s'.list[s.table[k]].inCache
    ensures var h := s.list[s.table[k]];
            && h.value.Some?
            && if h.refs == 0 then s'.deleted == s.deleted + {h.value.value}
               else s'.deleted == s.deleted && s'.list[s.table[k]] == h.(inCache := false)
  {
    hide Inv, Enabled, Violates, Apply, Run;
    var x := s.table[k];
    events, s' := [], s;
    NoSteps(s, a);
    EraseStarts(s, a, k);
    AfterEraseLock(s, a, k);
    events := OneMore(s, events, s', EraseLock(a, k), a);
    s' := Apply(s', EraseLock(a, k));
    ListedIsCached(s, k);
    EraseGoesOn(s', a);
    AfterEraseUnset(s', a);
    events := OneMore(s, events, s', EraseUnset(a), a);
    s' := Apply(s', EraseUnset(a));
    if s.list[x].refs == 0 {
      RecycleGoesOn(s', a);
      AfterEraseRecycle(s', a);
      events := OneMore(s, events, s', RecycleLocked(a), a);
      s' := Apply(s', RecycleLocked(a));
    }
    assert s'.agents == s.agents;
  }

  lemma NoSteps(s: State, a: Agent)
    ensures Run(s, [], s) && OnlyBy([], a)
  {
  }

  lemma EraseStarts(s: State, a: Agent, k: Key)
    requires a in s.agents && s.agents[a].Idle? && s.mutex.None?
    ensures Enabled(s, EraseLock(a, k))
  {
  }

  lemma EraseGoesOn(s: State, a: Agent)
    requires Inv(s) && a in s.agents && s.agents[a].Erasing?
    ensures Enabled(s, EraseUnset(a))
  {
    assert AgentOk(s, a, s.agents[a]);
  }

  lemma RecycleGoesOn(s: State, a: Agent)
    requires Inv(s) && a in s.agents && s.agents[a].Locked() && s.agents[a].ToRecycle().Some?
    ensures Enabled(s, RecycleLocked(a)) && !Violates(s, RecycleLocked(a))
  {
    assert AgentOk(s, a, s.agents[a]);
    StepKeepsInv(s, RecycleLocked(a));
  }

  /** Insert without evictions. */
  lemma AfterInsertLock(s: State, a: Agent, k: Key, hold: bool)
    requires a in s.agents && s.agents[a].Idle? && s.mutex.None?
    ensures var e := InsertLock(a, k, hold);
            && Enabled(s, e)
            && Apply(s, e).agents == s.agents[a := Evicting(k, hold, s.nextTicket)]
            && Apply(s, e).list == s.list && Apply(s, e).table == s.table && Apply(s, e).deleted == s.deleted
            && Apply(s, e).recycle == s.recycle
  {
  }

  lemma AfterGrab(s: State, a: Agent)
    requires Inv(s) && a in s.agents && s.agents[a].Evicting?
    ensures Enabled(s, InsertGrab(a)) && !Violates(s, InsertGrab(a))
    ensures var s', pc := Apply(s, InsertGrab(a)), s.agents[a];
            && s'.agents == s.agents[a := Filling(pc.wanted, pc.hold, pc.ticket, Grabbed(s))]
            && s'.table == s.table && s'.deleted == s.deleted && OthersKept(s, s', {}) && Has(s', Grabbed(s))
            && (Has(s, Grabbed(s)) ==> !InUse(s, Grabbed(s)))
  {
    StepKeepsInv(s, InsertGrab(a));
    if s.recycle != [] {
      GrabbedIsUnused(s);
    }
  }

  lemma AfterFill(s: State, a: Agent)
    requires Inv(s) && a in s.agents && s.agents[a].Filling?
    ensures Enabled(s, InsertFill(a)) && !Violates(s, InsertFill(a))
    ensures var s', pc := Apply(s, InsertFill(a)), s.agents[a];
            && s'.agents == s.agents[a := Filled(pc.wanted, pc.hold, pc.ticket, pc.h)]
            && s'.table == s.table && s'.deleted == s.deleted && OthersKept(s, s', {pc.h})
            && Carries(s', pc.h, pc.wanted, pc.ticket)
  {
    assert AgentOk(s, a, s.agents[a]);
    StepKeepsInv(s, InsertFill(a));
  }

  /** The entry that is new, with no usage bit, and referenced if its inserter wants to keep it. */
  predicate IsNew(s: State, x: HandleId, k: Key, ticket: Ticket, hold: bool) {
    Carries(s, x, k, ticket) && s.list[x].inCache && !s.list[x].usage && s.list[x].refs == Bit(hold)
  }

  lemma AfterStore(s: State, a: Agent)
    requires Inv(s) && a in s.agents && s.agents[a].Filled?
    ensures Enabled(s, InsertStore(a)) && !Violates(s, InsertStore(a))
    ensures var s', pc := Apply(s, InsertStore(a)), s.agents[a];
            && s'.agents == s.agents[a := Stored(pc.wanted, pc.hold, pc.ticket, pc.h)]
            && s'.table == s.table && s'.deleted == s.deleted && OthersKept(s, s', {pc.h})
            && IsNew(s', pc.h, pc.wanted, pc.ticket, pc.hold)
  {
    assert AgentOk(s, a, s.agents[a]);
    StepKeepsInv(s, InsertStore(a));
  }

  lemma AfterReplace(s: State, a: Agent)
    requires Inv(s) && a in s.agents && s.agents[a].Stored?
    ensures Enabled(s, InsertReplace(a)) && !Violates(s, InsertReplace(a))
    ensures var s', pc := Apply(s, InsertReplace(a)), s.agents[a];
            && s'.agents[a] == (if pc.wanted in s.table
                                then Overwriting(pc.wanted, pc.hold, pc.ticket, pc.h, s.table[pc.wanted])
                                else Inserting(pc.wanted, pc.hold, pc.ticket, pc.h))
            && s'.agents == s.agents[a := s'.agents[a]]
            && s'.table == s.table - {pc.wanted} && s'.deleted == s.deleted && s'.list == s.list
  {
    StepKeepsInv(s, InsertReplace(a));
  }

  lemma AfterOverwrite(s: State, a: Agent)
    requires Inv(s) && a in s.agents && s.agents[a].Overwriting?
    ensures Enabled(s, OverwriteUnset(a)) && !Violates(s, OverwriteUnset(a))
    ensures var s', pc := Apply(s, OverwriteUnset(a)), s.agents[a];
            && Has(s, pc.existing) && pc.existing != pc.h
            && s'.list == s.list[pc.existing := s.list[pc.existing].(inCache := false)]
            && s'.agents[a] == (if s.list[pc.existing].refs == 0
                                then OverwriteRecycle(pc.wanted, pc.hold, pc.ticket, pc.h, pc.existing)
                                else Inserting(pc.wanted, pc.hold, pc.ticket, pc.h))
            && s'.agents == s.agents[a := s'.agents[a]]
            && s'.table == s.table && s'.deleted == s.deleted
  {
    assert AgentOk(s, a, s.agents[a]);
    StepKeepsInv(s, OverwriteUnset(a));
  }

  lemma AfterOverwriteRecycle(s: State, a: Agent)
    requires Inv(s) && a in s.agents && s.agents[a].OverwriteRecycle?
    ensures Enabled(s, RecycleLocked(a)) && !Violates(s, RecycleLocked(a))
    ensures var s', pc := Apply(s, RecycleLocked(a)), s.agents[a];
            && Has(s, pc.existing) && pc.existing != pc.h && s.list[pc.existing].value.Some?
            && s'.list == s.list[pc.existing := s.list[pc.existing].(key := None, value := None)]
            && s'.agents == s.agents[a := Inserting(pc.wanted, pc.hold, pc.ticket, pc.h)]
            && s'.table == s.table && s'.deleted == s.deleted + {s.list[pc.existing].value.value}
  {
    assert AgentOk(s, a, s.agents[a]);
    RecycleGoesOn(s, a);
  }

  lemma AfterFinish(s: State, a: Agent)
    requires Inv(s) && a in s.agents && s.agents[a].Inserting?
    ensures Enabled(s, InsertFinish(a)) && !Violates(s, InsertFinish(a))
    ensures var s', pc := Apply(s, InsertFinish(a)), s.agents[a];
            && s'.agents == s.agents[a := if pc.hold then Holding(pc.wanted, pc.h, pc.ticket) else Idle]
            && s'.table == s.table[pc.wanted := pc.h] && s'.mutex.None?
            && s'.list == s.list && s'.deleted == s.deleted
  {
    StepKeepsInv(s, InsertFinish(a));
  }

  /** The steps of an insert from the grab of a handle until its entry is in the cache. */
  lemma NewEntry(s: State, a: Agent, k: Key, hold: bool) returns (events: seq<Event>, s': State, h: HandleId)
    requires Inv(s) && a in s.agents && s.agents[a].Idle? && s.mutex.None?
    ensures Run(s, events, s') && OnlyBy(events, a) && Inv(s')
    ensures s'.agents == s.agents[a := Stored(k, hold, s.nextTicket, h)]
    ensures s'.table == s.table && s'.deleted == s.deleted && OthersKept(s, s', {h})
    ensures IsNew(s', h, k, s.nextTicket, hold) && (Has(s, h) ==> !InUse(s, h))
  {
    hide Inv, Enabled, Violates, Apply, Run, Grabbed, InUse;
    NoSteps(s, a);
    AfterInsertLock(s, a, k, hold);
    events := OneMore(s, [], s, InsertLock(a, k, hold), a);
    var s1 := Apply(s, InsertLock(a, k, hold));
    AfterGrab(s1, a);
    h := Grabbed(s1);
    assert Has(s, h) ==> !InUse(s, h) by {
      SameUse(s, s1, h);
    }
    events := OneMore(s, events, s1, InsertGrab(a), a);
    var s2 := Apply(s1, InsertGrab(a));
    AfterFill(s2, a);
    events := OneMore(s, events, s2, InsertFill(a), a);
    var s3 := Apply(s2, InsertFill(a));
    AfterStore(s3, a);
    events := OneMore(s, events, s3, InsertStore(a), a);
    s' := Apply(s3, InsertStore(a));
  }

  lemma SameUse(s: State, s': State, x: HandleId)
    requires s.list == s'.list
    ensures InUse(s, x) <==> InUse(s', x)
  {
  }

  /** What becomes of the entry under a key, if there is one, when another takes its place: it leaves the cache, and its
      value is deleted if nobody refers to it. */
  ghost predicate Left(s: State, s': State, k: Key) {
    if k !in s.table then s'.deleted == s.deleted
    else
      var x := s.table[k];
      && Has(s, x) && Has(s', x) && !s'.list[x].inCache && s.list[x].value.Some?
      && if s.list[x].refs == 0 then s'.deleted == s.deleted + {s.list[x].value.value}
         else s'.deleted == s.deleted && s'.list[x] == s.list[x].(inCache := false)
  }

  /** The steps of an insert that take the entry with its key out. */
  lemma EntryReplaced(s0: State, before: seq<Event>, s: State, a: Agent) returns (events: seq<Event>, s': State)
    requires Run(s0, before, s) && OnlyBy(before, a) && Inv(s) && a in s.agents && s.agents[a].Stored?
    ensures Run(s0, events, s') && OnlyBy(events, a) && Inv(s')
    ensures var pc := s.agents[a];
            && s'.agents == s.agents[a := Inserting(pc.wanted, pc.hold, pc.ticket, pc.h)]
            && s'.table == s.table - {pc.wanted} && Left(s, s', pc.wanted)
            && (pc.wanted in s.table ==> s.table[pc.wanted] != pc.h)
            && OthersKept(s, s', if pc.wanted in s.table then {s.table[pc.wanted]} else {})
  {
    hide Inv, Enabled, Violates, Apply, Run;
    var k := s.agents[a].wanted;
    AfterReplace(s, a);
    events := OneMore(s0, before, s, InsertReplace(a), a);
    s' := Apply(s, InsertReplace(a));
    if k in s.table {
      OwnerIs(s, a);
      StoredIsCached(s, k);
      AfterOverwrite(s', a);
      events := OneMore(s0, events, s', OverwriteUnset(a), a);
      s' := Apply(s', OverwriteUnset(a));
      if s.list[s.table[k]].refs == 0 {
        AfterOverwriteRecycle(s', a);
        events := OneMore(s0, events, s', RecycleLocked(a), a);
        s' := Apply(s', RecycleLocked(a));
      }
    }
  }

  lemma StoredIsCached(s: State, k: Key)
    requires Inv(s) && k in s.table && !Owner(s).Evicted?
    ensures var x := s.table[k]; Has(s, x) && s.list[x].inCache && s.list[x].value.Some?
  {
    assert TableOk(s, k);
    assert HandleOk(s, s.table[k]);
  }

  /** An insert that has to evict nothing puts its entry under the key, in place of the one there was, and hands out a
      reference to it if asked to. */
  lemma InsertCompletes(s: State, a: Agent, k: Key, hold: bool)
    returns (events: seq<Event>, s': State, h: HandleId)
    requires Inv(s) && a in s.agents && s.agents[a].Idle? && s.mutex.None?
    ensures Run(s, events, s') && OnlyBy(events, a) && Inv(s') && s'.mutex.None?
    ensures s'.agents == s.agents[a := if hold then Holding(k, h, s.nextTicket) else Idle]
    ensures s'.table == s.table[k := h] && IsNew(s', h, k, s.nextTicket, hold)
    ensures OthersKept(s, s', if k in s.table then {h, s.table[k]} else {h})
    ensures Left(s, s', k) && (k in s.table ==> h != s.table[k])
  {
    hide Inv, Enabled, Violates, Apply, Run, Left;
    var s4, s5;
    events, s4, h := NewEntry(s, a, k, hold);
    events, s5 := EntryReplaced(s, events, s4, a);
    AfterFinish(s5, a);
    events := OneMore(s, events, s5, InsertFinish(a), a);
    s' := Apply(s5, InsertFinish(a));
    assert (s.table - {k})[k := h] == s.table[k := h];
    if k in s.table {
      ListedIsCached(s, k);
    }
    LeftIsTheSame(s, s4, s5, s', k);
  }

  lemma OwnerIs(s: State, a: Agent)
    requires Inv(s) && a in s.agents && s.agents[a].Locked()
    ensures Owner(s) == s.agents[a]
  {
    assert AgentOk(s, a, s.agents[a]);
  }

  lemma LeftIsTheSame(s: State, s1: State, s2: State, s': State, k: Key)
    requires Left(s1, s2, k) && s1.table == s.table && s1.deleted == s.deleted
    requires s'.list == s2.list && s'.deleted == s2.deleted
    requires k in s.table ==> Has(s, s.table[k]) && Has(s1, s.table[k]) && s1.list[s.table[k]] == s.list[s.table[k]]
    ensures Left(s, s', k)
  {
  }

  /** An insert that gives up deletes the value, unless its caller wanted to keep a reference and gets it back. */
  lemma GiveUpCompletes(s: State, a: Agent, k: Key, hold: bool)
    requires Inv(s) && a in s.agents && s.agents[a].Idle? && s.mutex.None?
    ensures Enabled(s, InsertLock(a, k, hold)) && !Violates(s, InsertLock(a, k, hold))
    ensures var s1 := Apply(s, InsertLock(a, k, hold));
            && Enabled(s1, InsertGiveUp(a)) && !Violates(s1, InsertGiveUp(a))
            && var s' := Apply(s1, InsertGiveUp(a));
               && s'.agents == s.agents && s'.mutex.None? && s'.table == s.table && s'.list == s.list
               && s'.deleted == if hold then s.deleted else s.deleted + {s.nextTicket}
  {
    AfterInsertLock(s, a, k, hold);
    StepKeepsInv(s, InsertLock(a, k, hold));
    var s1 := Apply(s, InsertLock(a, k, hold));
    StepKeepsInv(s1, InsertGiveUp(a));
    assert Apply(s1, InsertGiveUp(a)).agents == s.agents;
  }

  // Eviction

  /** The steps of Release. */
  lemma AfterRelease(s: State, a: Agent)
    requires Inv(s) && a in s.agents && s.agents[a].Holding?
    ensures Enabled(s, SetUsage(a)) && !Violates(s, SetUsage(a)) && Has(s, s.agents[a].h)
    ensures var s1 := Apply(s, SetUsage(a));
            && Enabled(s1, FetchSub(a)) && !Violates(s1, FetchSub(a))
            && var s2, x := Apply(s1, FetchSub(a)), s.agents[a].h;
               && s.list[x].refs > 0 && s2.list == s.list[x := s.list[x].(usage := true, refs := s.list[x].refs - 1)]
               && forall b | b in s.agents && b != a :: b in s2.agents && s2.agents[b] == s.agents[b]
  {
    assert AgentOk(s, a, s.agents[a]);
    StepKeepsInv(s, SetUsage(a));
    StepKeepsInv(Apply(s, SetUsage(a)), FetchSub(a));
  }

  lemma AfterEvictFailure(s: State, b: Agent, x: HandleId)
    requires b in s.agents && s.agents[b].Evicting? && Has(s, x) && s.list[x].usage
    ensures !Enabled(s, EvictSuccess(b, x)) && Enabled(s, EvictFailure(b, x))
    ensures Enabled(Apply(s, EvictFailure(b, x)), EvictSuccess(b, x)) <==> s.list[x].inCache && s.list[x].refs == 0
  {
  }

  /** A released entry has been used: the hand passes over it once, and takes it the next time if nobody has looked it
      up since. */
  lemma SecondChance(s: State, a: Agent, b: Agent) returns (s2: State)
    requires Inv(s) && a in s.agents && s.agents[a].Holding? && b in s.agents && s.agents[b].Evicting?
    ensures Run(s, [SetUsage(a), FetchSub(a)], s2)
    ensures var x := s.agents[a].h;
            && Has(s, x) && !Enabled(s2, EvictSuccess(b, x)) && Enabled(s2, EvictFailure(b, x))
            && (Enabled(Apply(s2, EvictFailure(b, x)), EvictSuccess(b, x))
                <==> s.list[x].inCache && s.list[x].refs == 1)
  {
    hide Inv, Enabled, Violates, Apply;
    AfterRelease(s, a);
    var s1 := Apply(s, SetUsage(a));
    s2 := Apply(s1, FetchSub(a));
    assert [FetchSub(a)][1..] == [] && [SetUsage(a), FetchSub(a)][1..] == [FetchSub(a)];
    assert Run(s1, [FetchSub(a)], s2);
    AfterEvictFailure(s2, b, s.agents[a].h);
  }

  /** An insert that evicts an entry takes it out of the cache and the table, deletes its value and goes on. */
  lemma EvictionCompletes(s: State, b: Agent, x: HandleId) returns (s2: State)
    requires Inv(s) && b in s.agents && s.agents[b].Evicting? && Has(s, x)
    requires s.list[x].inCache && !s.list[x].usage && s.list[x].refs == 0
    ensures Run(s, [EvictSuccess(b, x), RecycleLocked(b)], s2) && Inv(s2) && s2.agents == s.agents
    ensures s.list[x].key.Some? && s.list[x].value.Some?
    ensures s2.table == s.table - {s.list[x].key.value} && s2.deleted == s.deleted + {s.list[x].value.value}
    ensures s2.list == s.list[x := s.list[x].(inCache := false, key := None, value := None)]
    ensures s2.recycle == s.recycle + [x] && s2.usage == s.usage - s.list[x].charge
  {
    hide Inv;
    var e := EvictSuccess(b, x);
    StepKeepsInv(s, e);
    var s1 := Apply(s, e);
    EvictedGoesOn(s1, b);
    StepKeepsInv(s1, RecycleLocked(b));
    s2 := Apply(s1, RecycleLocked(b));
    assert s2.agents == s.agents;
    assert [RecycleLocked(b)][1..] == [] && [e, RecycleLocked(b)][1..] == [RecycleLocked(b)];
    assert Run(s1, [RecycleLocked(b)], s2);
  }

  lemma EvictedGoesOn(s: State, b: Agent)
    requires Inv(s) && b in s.agents && s.agents[b].Evicted?
    ensures Enabled(s, RecycleLocked(b)) && s.list[s.agents[b].h].key.Some? && s.list[s.agents[b].h].value.Some?
  {
    assert AgentOk(s, b, s.agents[b]);
  }

  // EraseUnRefEntries

  lemma AfterClearUnset(s: State, a: Agent)
    requires Inv(s) && a in s.agents && s.agents[a].Clearing?
    ensures Enabled(s, ClearUnset(a)) && !Violates(s, ClearUnset(a))
    ensures var s', n := Apply(s, ClearUnset(a)), s.agents[a].next;
            && s'.table == s.table && |s'.list| == |s.list| && s'.agents == s.agents[a := s'.agents[a]]
            && (if !Has(s, n) then s'.agents[a].Idle? && s'.mutex.None?
                else s'.agents[a] == ClearRecycle(n) || s'.agents[a] == Clearing(n + 1))
  {
    StepKeepsInv(s, ClearUnset(a));
  }

  lemma AfterClearRecycle(s: State, a: Agent)
    requires Inv(s) && a in s.agents && s.agents[a].ClearRecycle?
    ensures Enabled(s, RecycleLocked(a)) && !Violates(s, RecycleLocked(a))
    ensures var s' := Apply(s, RecycleLocked(a));
            && s'.table == s.table && |s'.list| == |s.list|
            && s'.agents == s.agents[a := Clearing(s.agents[a].h + 1)]
  {
    RecycleGoesOn(s, a);
  }

  lemma {:induction false} ClearingEnds(s0: State, before: seq<Event>, s: State, a: Agent)
    returns (events: seq<Event>, s': State)
    requires Run(s0, before, s) && OnlyBy(before, a) && Inv(s) && a in s.agents && s.agents[a].Clearing?
    ensures Run(s0, events, s') && OnlyBy(events, a) && Inv(s')
    ensures s'.agents == s.agents[a := Idle] && s'.mutex.None? && s'.table == s.table
    decreases |s.list| - s.agents[a].next
  {
    hide Inv, Enabled, Violates, Apply, Run;
    AfterClearUnset(s, a);
    events := OneMore(s0, before, s, ClearUnset(a), a);
    s' := Apply(s, ClearUnset(a));
    if s'.agents[a].ClearRecycle? {
      AfterClearRecycle(s', a);
      events := OneMore(s0, events, s', RecycleLocked(a), a);
      s' := Apply(s', RecycleLocked(a));
    }
    if s'.agents[a].Clearing? {
      events, s' := ClearingEnds(s0, events, s', a);
    }
  }

  /** EraseUnRefEntries empties the table and the cache. */
  lemma ClearCompletes(s: State, a: Agent) returns (events: seq<Event>, s': State)
    requires Inv(s) && a in s.agents && s.agents[a].Idle? && s.mutex.None?
    ensures Run(s, events, s') && OnlyBy(events, a) && Inv(s')
    ensures s'.agents == s.agents && s'.mutex.None? && s'.table == map[]
    ensures forall x | 0 <= x < |s'.list| :: !s'.list[x].inCache
  {
    hide Inv, Violates, Run;
    NoSteps(s, a);
    events := OneMore(s, [], s, ClearLock(a), a);
    events, s' := ClearingEnds(s, events, Apply(s, ClearLock(a)), a);
    assert s'.agents == s.agents;
    NothingListed(s');
  }

  lemma NothingListed(s: State)
    requires Inv(s) && s.mutex.None? && s.table == map[]
    ensures forall x | 0 <= x < |s.list| :: !s.list[x].inCache
  {
    forall x | 0 <= x < |s.list|
      ensures !s.list[x].inCache
    {
      assert HandleOk(s, x);
    }
  }
}
