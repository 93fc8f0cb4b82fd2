/** The clock cache under concurrency: lock-free lookups and releases against inserts, erases and evictions that
    hold the mutex. The model is a state machine whose steps are the atomic accesses to a handle's flags and the
    accesses made under the mutex. A compare-and-swap that fails changes nothing and is not a step. */
module ClockCache {
  import opened Wrappers
  import opened Counting

  type Agent = nat
  type HandleId = nat
  type Key = int
  /** Identifies one inserted value, so that deletions can be told apart. */
  type Ticket = nat

  /** A cache handle: what it stores and its packed flags. */
  datatype Handle = Handle(
    key: Option<Key>,
    value: Option<Ticket>,
    charge: nat,
    inCache: bool,
    usage: bool,
    refs: nat)

  /** An agent holds at most one reference; a thread with several references is several agents. */
  datatype Pc =
    | Idle
    // Lookup, Release
    | Found(wanted: Key, h: HandleId)                          // handle read from the table, not referenced yet
    | Checking(wanted: Key, h: HandleId)                       // referenced, key still to be compared
    | Mismatch(h: HandleId)                                    // referenced, but now holds another key
    | Holding(wanted: Key, h: HandleId, ticket: Ticket)
    | Releasing(h: HandleId)                                   // usage bit set, reference still held
    | MustRecycle(h: HandleId)                                 // dropped the last reference, waits for the mutex
    // Erase, EraseUnRefEntries (mutex held)
    | Erasing(h: HandleId)                                     // gone from the table, in-cache bit still set
    | EraseRecycle(h: HandleId)
    | Clearing(next: HandleId)
    | ClearRecycle(h: HandleId)
    // Insert (mutex held)
    | Evicting(wanted: Key, hold: bool, ticket: Ticket)
    | Evicted(wanted: Key, hold: bool, ticket: Ticket, h: HandleId)
    | Filling(wanted: Key, hold: bool, ticket: Ticket, h: HandleId)
    | Filled(wanted: Key, hold: bool, ticket: Ticket, h: HandleId)
    | Stored(wanted: Key, hold: bool, ticket: Ticket, h: HandleId)
    | Overwriting(wanted: Key, hold: bool, ticket: Ticket, h: HandleId, existing: HandleId)
    | OverwriteRecycle(wanted: Key, hold: bool, ticket: Ticket, h: HandleId, existing: HandleId)
    | Inserting(wanted: Key, hold: bool, ticket: Ticket, h: HandleId)
  {
    predicate Locked() {
      Erasing? || EraseRecycle? || Clearing? || ClearRecycle? || Evicting? || Evicted? || Filling? || Filled?
      || Stored? || Overwriting? || OverwriteRecycle? || Inserting?
    }

    /** The handle this agent holds a counted reference to. */
    function Reference(): Option<HandleId> {
      if Checking? || Mismatch? || Holding? || Releasing? then Some(h)
      else if (Stored? || Overwriting? || OverwriteRecycle? || Inserting?) && hold then Some(h)
      else None
    }

    /** The unused handle this agent alone is responsible for. */
    function Pending(): Option<HandleId> {
      if MustRecycle? || EraseRecycle? || ClearRecycle? || Evicted? || Filling? || Filled? then Some(h)
      else if OverwriteRecycle? then Some(existing)
      else None
    }

    /** The handle about to be recycled. */
    function ToRecycle(): Option<HandleId> {
      if MustRecycle? || EraseRecycle? || ClearRecycle? || Evicted? then Some(h)
      else if OverwriteRecycle? then Some(existing)
      else None
    }

    /** Handles that have their in-cache bit set while the table does not list them. */
    predicate Detached(x: HandleId) {
      if Erasing? then x == h
      else if Clearing? then x >= next
      else if ClearRecycle? then x > h
      else if Stored? || OverwriteRecycle? || Inserting? then x == h
      else if Overwriting? then x == h || x == existing
      else false
    }
  }

  datatype State = State(
    list: seq<Handle>,
    recycle: seq<HandleId>,
    table: map<Key, HandleId>,
    mutex: Option<Agent>,
    agents: map<Agent, Pc>,
    nextTicket: Ticket,
    home: map<Ticket, HandleId>,       // which handle a value was put into
    deleted: set<Ticket>,              // values handed to their deleter
    usage: int,
    charges: Ticket -> nat)            // what each value counts for, as its inserter says

  datatype Event =
    | TableFind(a: Agent, k: Key)
    | RefSuccess(a: Agent)
    | RefFailure(a: Agent)
    | CheckKey(a: Agent)
    | SetUsage(a: Agent)
    | FetchSub(a: Agent)
    | RecycleUnlocked(a: Agent)
    | EraseLock(a: Agent, k: Key)
    | EraseUnset(a: Agent)
    | ClearLock(a: Agent)
    | ClearUnset(a: Agent)
    | RecycleLocked(a: Agent)
    | InsertLock(a: Agent, k: Key, hold: bool)
    | EvictSuccess(a: Agent, x: HandleId)
    | EvictFailure(a: Agent, x: HandleId)
    | InsertGiveUp(a: Agent)
    | InsertGrab(a: Agent)
    | InsertFill(a: Agent)
    | InsertStore(a: Agent)
    | InsertReplace(a: Agent)
    | OverwriteUnset(a: Agent)
    | InsertFinish(a: Agent)

  const BLANK := Handle(None, None, 0, false, false, 0)

  ghost predicate Init(s: State) {
    && s.list == [] && s.recycle == [] && s.table == map[] && s.mutex.None?
    && (forall a | a in s.agents :: s.agents[a].Idle?)
    && s.nextTicket == 0 && s.home == map[] && s.deleted == {} && s.usage == 0
  }

  predicate Has(s: State, h: HandleId) {
    h < |s.list|
  }

  predicate Enabled(s: State, e: Event) {
    && e.a in s.agents
    && var pc := s.agents[e.a];
       match e
       case TableFind(_, _) => pc.Idle?
       case RefSuccess(_) => pc.Found? && Has(s, pc.h) && s.list[pc.h].inCache
       case RefFailure(_) => pc.Found? && Has(s, pc.h) && !s.list[pc.h].inCache
       case CheckKey(_) => pc.Checking? && Has(s, pc.h)
       case SetUsage(_) => pc.Holding? && Has(s, pc.h)
       case FetchSub(_) => (pc.Releasing? || pc.Mismatch?) && Has(s, pc.h)
       case RecycleUnlocked(_) => pc.MustRecycle? && s.mutex.None? && Has(s, pc.h)
       case EraseLock(_, _) => pc.Idle? && s.mutex.None?
       case EraseUnset(_) => pc.Erasing? && Has(s, pc.h)
       case ClearLock(_) => pc.Idle? && s.mutex.None?
       case ClearUnset(_) => pc.Clearing?
       case RecycleLocked(_) => pc.Locked() && pc.ToRecycle().Some? && Has(s, pc.ToRecycle().value)
       case InsertLock(_, _, _) => pc.Idle? && s.mutex.None?
       case EvictSuccess(_, x) =>
         pc.Evicting? && Has(s, x) && s.list[x].inCache && !s.list[x].usage && s.list[x].refs == 0
       case EvictFailure(_, x) =>
         pc.Evicting? && Has(s, x) && !(s.list[x].inCache && !s.list[x].usage && s.list[x].refs == 0)
       case InsertGiveUp(_) => pc.Evicting?
       case InsertGrab(_) => pc.Evicting?
       case InsertFill(_) => pc.Filling? && Has(s, pc.h)
       case InsertStore(_) => pc.Filled? && Has(s, pc.h)
       case InsertReplace(_) => pc.Stored?
       case OverwriteUnset(_) => pc.Overwriting? && Has(s, pc.existing)
       case InsertFinish(_) => pc.Inserting?
  }

  // ----- The asserts -----

  /** RecycleHandle must see an unused handle, and hand its value to the deleter once. */
  predicate BadRecycle(s: State, x: HandleId)
    requires Has(s, x)
  {
    var h := s.list[x];
    h.inCache || h.refs > 0 || x in s.recycle || h.value.None? || h.value.value in s.deleted
  }

  predicate InUse(s: State, x: HandleId) {
    Has(s, x) && (s.list[x].inCache || s.list[x].refs > 0)
  }

  /** The source's asserts, and what it relies on without an assert, at the step concerned. */
  predicate Violates(s: State, e: Event)
    requires Enabled(s, e)
  {
    var pc := s.agents[e.a];
    match e
    case FetchSub(_) => s.list[pc.h].refs == 0
    case RecycleUnlocked(_) => BadRecycle(s, pc.h)
    case RecycleLocked(_) =>
      || BadRecycle(s, pc.ToRecycle().value)
      || (pc.Evicted? && !(s.list[pc.h].key.Some? && s.list[pc.h].key.value in s.table
          && s.table[s.list[pc.h].key.value] == pc.h))
    case InsertGiveUp(_) => pc.ticket in s.deleted
    case InsertGrab(_) => s.recycle != [] && InUse(s, s.recycle[|s.recycle| - 1])
    case InsertFill(_) => InUse(s, pc.h) || pc.h in s.recycle || pc.ticket in s.home
    case InsertStore(_) => InUse(s, pc.h) || pc.h in s.recycle
    case InsertReplace(_) => pc.wanted in s.table && s.table[pc.wanted] == pc.h
    case InsertFinish(_) => pc.wanted in s.table
    case _ => false
  }

  // ----- The steps -----

  function At(s: State, a: Agent, pc: Pc): State {
    s.(agents := s.agents[a := pc])
  }

  function Unlock(s: State, a: Agent): State {
    s.(agents := s.agents[a := Idle], mutex := None)
  }

  function Put(s: State, x: HandleId, h: Handle): State
    requires Has(s, x)
  {
    s.(list := s.list[x := h])
  }

  function Recycle(s: State, x: HandleId): State
    requires Has(s, x) && s.list[x].value.Some?
  {
    Put(s, x, s.list[x].(key := None, value := None))
    .(recycle := s.recycle + [x], deleted := s.deleted + {s.list[x].value.value}, usage := s.usage - s.list[x].charge)
  }

  /** The handle Insert takes: the last recycled one, or a new one at the end of the list. */
  function Grabbed(s: State): HandleId {
    if s.recycle != [] then s.recycle[|s.recycle| - 1] else |s.list|
  }

  /** Where a mutex holder goes after recycling. */
  function AfterRecycle(pc: Pc): Pc
    requires pc.Locked() && pc.ToRecycle().Some?
  {
    if pc.EraseRecycle? then Idle
    else if pc.ClearRecycle? then Clearing(pc.h + 1)
    else if pc.Evicted? then Evicting(pc.wanted, pc.hold, pc.ticket)
    else Inserting(pc.wanted, pc.hold, pc.ticket, pc.h)
  }

  function Apply(s: State, e: Event): State
    requires Enabled(s, e) && !Violates(s, e)
  {
    var a, pc := e.a, s.agents[e.a];
    match e
    case TableFind(_, k) => At(s, a, if k in s.table then Found(k, s.table[k]) else Idle)
    case RefSuccess(_) =>
      var h := s.list[pc.h];
      At(Put(s, pc.h, h.(refs := h.refs + 1)), a, Checking(pc.wanted, pc.h))
    case RefFailure(_) => At(s, a, Idle)
    case CheckKey(_) =>
      var h := s.list[pc.h];
      At(s, a, if h.key == Some(pc.wanted) && h.value.Some? then Holding(pc.wanted, pc.h, h.value.value)
               else Mismatch(pc.h))
    case SetUsage(_) => At(Put(s, pc.h, s.list[pc.h].(usage := true)), a, Releasing(pc.h))
    case FetchSub(_) =>
      var h := s.list[pc.h];
      At(Put(s, pc.h, h.(refs := h.refs - 1)), a, if h.refs == 1 && !h.inCache then MustRecycle(pc.h) else Idle)
    case RecycleUnlocked(_) => At(Recycle(s, pc.h), a, Idle)
    case EraseLock(_, k) =>
      if k in s.table then At(s, a, Erasing(s.table[k])).(table := s.table - {k}, mutex := Some(a)) else s
    case EraseUnset(_) =>
      var h := s.list[pc.h];
      var s' := Put(s, pc.h, h.(inCache := false));
      if h.inCache && h.refs == 0 then At(s', a, EraseRecycle(pc.h)) else Unlock(s', a)
    case ClearLock(_) => At(s, a, Clearing(0)).(table := map[], mutex := Some(a))
    case ClearUnset(_) =>
      if !Has(s, pc.next) then Unlock(s, a)
      else
        var h := s.list[pc.next];
        At(Put(s, pc.next, h.(inCache := false)), a,
           if h.inCache && h.refs == 0 then ClearRecycle(pc.next) else Clearing(pc.next + 1))
    case RecycleLocked(_) =>
      var x := pc.ToRecycle().value;
      var s' := At(Recycle(s, x), a, AfterRecycle(pc));
      if pc.EraseRecycle? then s'.(mutex := None)
      else if pc.Evicted? then s'.(table := s.table - {s.list[x].key.value})
      else s'
    case InsertLock(_, k, hold) =>
      At(s, a, Evicting(k, hold, s.nextTicket)).(mutex := Some(a), nextTicket := s.nextTicket + 1)
    case EvictSuccess(_, x) =>
      At(Put(s, x, s.list[x].(inCache := false)), a, Evicted(pc.wanted, pc.hold, pc.ticket, x))
    case EvictFailure(_, x) => Put(s, x, s.list[x].(usage := false))
    case InsertGiveUp(_) =>
      var s' := Unlock(s, a);
      if pc.hold then s' else s'.(deleted := s.deleted + {pc.ticket})
    case InsertGrab(_) =>
      var s' := At(s, a, Filling(pc.wanted, pc.hold, pc.ticket, Grabbed(s)));
      if s.recycle != [] then s'.(recycle := s.recycle[..|s.recycle| - 1]) else s'.(list := s.list + [BLANK])
    case InsertFill(_) =>
      var h := s.list[pc.h].(key := Some(pc.wanted), value := Some(pc.ticket), charge := s.charges(pc.ticket));
      At(Put(s, pc.h, h), a, Filled(pc.wanted, pc.hold, pc.ticket, pc.h))
      .(home := s.home[pc.ticket := pc.h])
    case InsertStore(_) =>
      At(Put(s, pc.h, s.list[pc.h].(inCache := true, usage := false, refs := Bit(pc.hold))), a,
         Stored(pc.wanted, pc.hold, pc.ticket, pc.h))
    case InsertReplace(_) =>
      if pc.wanted in s.table
      then
        At(s, a, Overwriting(pc.wanted, pc.hold, pc.ticket, pc.h, s.table[pc.wanted]))
        .(table := s.table - {pc.wanted})
      else At(s, a, Inserting(pc.wanted, pc.hold, pc.ticket, pc.h))
    case OverwriteUnset(_) =>
      var h := s.list[pc.existing];
      At(Put(s, pc.existing, h.(inCache := false)), a,
         if h.inCache && h.refs == 0 then OverwriteRecycle(pc.wanted, pc.hold, pc.ticket, pc.h, pc.existing)
         else Inserting(pc.wanted, pc.hold, pc.ticket, pc.h))
    case InsertFinish(_) =>
      At(s, a, if pc.hold then Holding(pc.wanted, pc.h, pc.ticket) else Idle)
      .(table := s.table[pc.wanted := pc.h], mutex := None, usage := s.usage + s.charges(pc.ticket))
  }

  // ----- The invariant -----

  function RefersTo(x: HandleId): Pc -> bool {
    (pc: Pc) => pc.Reference() == Some(x)
  }

  function Keeps(x: HandleId): Pc -> bool {
    (pc: Pc) => pc.Pending() == Some(x)
  }

  function Referrers(agents: map<Agent, Pc>, x: HandleId): set<Agent> {
    Where(agents, RefersTo(x))
  }

  function Keepers(agents: map<Agent, Pc>, x: HandleId): set<Agent> {
    Where(agents, Keeps(x))
  }

  function RefsOf(s: State, x: HandleId): nat {
    if Has(s, x) then s.list[x].refs else 0
  }

  /** The counter of a handle is the number of agents that hold a reference to it. */
  predicate CountedAt(s: State, x: HandleId) {
    |Referrers(s.agents, x)| == RefsOf(s, x)
  }

  /** An unused handle is once in the recycle bin, or exactly one agent is about to put it there or to fill it. */
  predicate RecycledOnceAt(s: State, x: HandleId) {
    multiset(s.recycle)[x] + |Keepers(s.agents, x)| == Bit(Has(s, x) && !InUse(s, x))
  }

  predicate HandleOk(s: State, x: HandleId)
    requires Has(s, x)
  {
    var h := s.list[x];
    && (h.key.Some? <==> h.value.Some?)
    && (h.inCache || h.refs > 0 ==> h.value.Some?)
    && (x in s.recycle ==> h.value.None?)
    && (h.value.Some? ==> h.value.value in s.home && s.home[h.value.value] == x)
    // An entry in the cache is listed in the table, unless the mutex holder has just taken it out or not put it in.
    && (h.inCache ==> (h.key.value in s.table && s.table[h.key.value] == x) || Owner(s).Detached(x))
  }

  /** A value is handed to its deleter exactly when its handle gives it up. */
  predicate TicketOk(s: State, t: Ticket)
    requires t in s.home
  {
    t < s.nextTicket && Has(s, s.home[t]) && (t in s.deleted <==> s.list[s.home[t]].value != Some(t))
  }

  predicate TableOk(s: State, k: Key)
    requires k in s.table
  {
    var x := s.table[k];
    && Has(s, x) && s.list[x].key == Some(k)
    && (s.list[x].inCache || (Owner(s).Evicted? && Owner(s).h == x))
  }

  /** The position of the mutex holder. */
  function Owner(s: State): Pc {
    if s.mutex.Some? && s.mutex.value in s.agents then s.agents[s.mutex.value] else Idle
  }

  predicate Carries(s: State, x: HandleId, k: Key, t: Ticket) {
    Has(s, x) && s.list[x].key == Some(k) && s.list[x].value == Some(t)
  }

  predicate FreshTicket(s: State, t: Ticket) {
    t < s.nextTicket && t !in s.home && t !in s.deleted
  }

  predicate AgentOk(s: State, a: Agent, pc: Pc) {
    && (pc.Locked() <==> s.mutex == Some(a))
    && (pc.ToRecycle().Some? ==> Has(s, pc.ToRecycle().value) && s.list[pc.ToRecycle().value].value.Some?)
    && match pc
       case Found(_, x) => Has(s, x)
       case Holding(k, x, t) => Carries(s, x, k, t)
       case Erasing(x) => Has(s, x) && s.list[x].inCache && (s.list[x].key.Some? ==> s.list[x].key.value !in s.table)
       case Clearing(_) => s.table == map[]
       case ClearRecycle(_) => s.table == map[]
       case Evicting(_, _, t) => FreshTicket(s, t)
       case Evicted(_, _, t, x) =>
         && FreshTicket(s, t)
         && s.list[x].key.Some? && s.list[x].key.value in s.table && s.table[s.list[x].key.value] == x
       case Filling(_, _, t, x) => FreshTicket(s, t) && Has(s, x) && s.list[x].value.None?
       case Filled(k, _, t, x) => Carries(s, x, k, t)
       case Stored(k, _, t, x) => Carries(s, x, k, t) && s.list[x].inCache && (k in s.table ==> s.table[k] != x)
       case Overwriting(k, _, t, x, existing) =>
         && Carries(s, x, k, t) && s.list[x].inCache && k !in s.table
         && existing != x && Has(s, existing) && s.list[existing].inCache && s.list[existing].key == Some(k)
       case OverwriteRecycle(k, _, t, x, existing) =>
         Carries(s, x, k, t) && s.list[x].inCache && k !in s.table && existing != x
       case Inserting(k, _, t, x) => Carries(s, x, k, t) && s.list[x].inCache && k !in s.table
       case _ => true
  }

  ghost predicate Counted(s: State) {
    forall x :: CountedAt(s, x) && RecycledOnceAt(s, x)
  }

  predicate HandlesOk(s: State) {
    forall x | 0 <= x < |s.list| :: HandleOk(s, x)
  }

  predicate TicketsOk(s: State) {
    && (forall t | t in s.home :: TicketOk(s, t))
    && (forall t | t in s.deleted :: t < s.nextTicket)
  }

  predicate TableEntriesOk(s: State) {
    forall k | k in s.table :: TableOk(s, k)
  }

  predicate AgentsOk(s: State) {
    && (forall a | a in s.agents :: AgentOk(s, a, s.agents[a]))
    && (s.mutex.Some? ==> s.mutex.value in s.agents)
  }

  ghost predicate Inv(s: State) {
    Counted(s) && HandlesOk(s) && TicketsOk(s) && TableEntriesOk(s) && AgentsOk(s)
  }

  // ----- Counting -----

  lemma AgentUpdate(agents: map<Agent, Pc>, a: Agent, pc: Pc, x: HandleId)
    requires a in agents
    ensures |Referrers(agents[a := pc], x)| + Bit(agents[a].Reference() == Some(x))
            == |Referrers(agents, x)| + Bit(pc.Reference() == Some(x))
    ensures |Keepers(agents[a := pc], x)| + Bit(agents[a].Pending() == Some(x))
            == |Keepers(agents, x)| + Bit(pc.Pending() == Some(x))
  {
    WhereAfterUpdate(agents, a, pc, RefersTo(x));
    WhereAfterUpdate(agents, a, pc, Keeps(x));
  }

  /** Each agent contributes to the counts. */
  lemma AgentCounts(s: State, a: Agent, x: HandleId)
    requires CountedAt(s, x) && RecycledOnceAt(s, x) && a in s.agents
    ensures s.agents[a].Reference() == Some(x) ==> Has(s, x) && s.list[x].refs > 0
    ensures s.agents[a].Pending() == Some(x) ==> Has(s, x) && !InUse(s, x) && x !in s.recycle
  {
    if s.agents[a].Reference() == Some(x) {
      assert a in Referrers(s.agents, x);
    }
    if s.agents[a].Pending() == Some(x) {
      assert a in Keepers(s.agents, x);
    }
  }

  // ----- Every step keeps the invariant -----

  lemma LastPopped(r: seq<HandleId>, x: HandleId)
    requires r != []
    ensures multiset(r)[x] == multiset(r[..|r| - 1])[x] + Bit(r[|r| - 1] == x)
  {
    assert r == r[..|r| - 1] + [r[|r| - 1]];
  }

  /** The steps that need no mutex. */
  predicate LockFree(e: Event) {
    Looks(e) || Touches(e)
  }

  /** Those that read only, and those that write a handle's flags. */
  predicate Looks(e: Event) {
    e.TableFind? || e.RefFailure? || e.CheckKey?
  }

  predicate Touches(e: Event) {
    e.RefSuccess? || e.SetUsage? || e.FetchSub?
  }

  /** The steps that erase entries or put unused handles into the recycle bin. */
  predicate Removal(e: Event) {
    Recycling(e) || Erasure(e)
  }

  predicate Recycling(e: Event) {
    e.RecycleUnlocked? || e.RecycleLocked?
  }

  predicate Erasure(e: Event) {
    e.EraseLock? || e.EraseUnset? || e.ClearLock? || e.ClearUnset?
  }

  /** Insert until it has found a handle for the new entry. */
  predicate Admission(e: Event) {
    e.InsertLock? || e.EvictSuccess? || e.EvictFailure? || e.InsertGiveUp? || e.InsertGrab?
  }

  /** Insert from there on. */
  predicate Publication(e: Event) {
    e.InsertFill? || e.InsertStore? || e.InsertReplace? || e.OverwriteUnset? || e.InsertFinish?
  }

  predicate SameHandle(s: State, s': State, x: HandleId)
    requires Has(s, x) && Has(s', x)
  {
    && s.list[x].key == s'.list[x].key && s.list[x].value == s'.list[x].value
    && s.list[x].charge == s'.list[x].charge && s.list[x].inCache == s'.list[x].inCache
    && (s'.list[x].refs > 0 ==> InUse(s, x))
  }

  /** What a step without the mutex leaves as it is. */
  ghost predicate Framed(s: State, s': State, a: Agent) {
    && s'.table == s.table && s'.mutex == s.mutex && s'.recycle == s.recycle && s'.home == s.home
    && s'.deleted == s.deleted && s'.usage == s.usage && s'.charges == s.charges && s'.nextTicket == s.nextTicket
    && |s'.list| == |s.list|
    && a in s.agents && a in s'.agents && s'.agents == s.agents[a := s'.agents[a]]
    && !s.agents[a].Locked() && !s'.agents[a].Locked()
    && forall x | 0 <= x < |s.list| :: SameHandle(s, s', x)
  }

  lemma LookingStep(s: State, e: Event)
    requires Enabled(s, e) && !Violates(s, e) && Looks(e)
    ensures Framed(s, Apply(s, e), e.a)
  {
  }

  lemma TouchingStep(s: State, e: Event)
    requires Enabled(s, e) && !Violates(s, e) && Touches(e)
    ensures Framed(s, Apply(s, e), e.a)
  {
    hide Recycle, BadRecycle, AfterRecycle;
  }

  /** Without the mutex only counters, usage bits and the agent's own position change. */
  lemma LockFreeStep(s: State, e: Event)
    requires Enabled(s, e) && !Violates(s, e) && LockFree(e)
    ensures Framed(s, Apply(s, e), e.a)
  {
    hide Enabled, Violates, Apply, Framed;
    if Looks(e) {
      LookingStep(s, e);
    } else {
      TouchingStep(s, e);
    }
  }

  predicate Unused(s: State, x: HandleId) {
    Has(s, x) && !InUse(s, x)
  }

  /** What a step adds to the counts of `x` it also adds to the agent's own share. */
  predicate Balanced(s: State, s': State, a: Agent, x: HandleId)
    requires a in s.agents && a in s'.agents
  {
    var pc, pc' := s.agents[a], s'.agents[a];
    && RefsOf(s, x) + Bit(pc'.Reference() == Some(x)) == RefsOf(s', x) + Bit(pc.Reference() == Some(x))
    && Bit(Unused(s, x)) + multiset(s'.recycle)[x] + Bit(pc'.Pending() == Some(x))
       == Bit(Unused(s', x)) + multiset(s.recycle)[x] + Bit(pc.Pending() == Some(x))
  }

  lemma BalancedLooking(s: State, e: Event, x: HandleId)
    requires Enabled(s, e) && !Violates(s, e) && Looks(e)
    ensures Balanced(s, Apply(s, e), e.a, x)
  {
    hide Recycle, BadRecycle, AfterRecycle, Grabbed, Unlock;
  }

  lemma BalancedTouching(s: State, e: Event, x: HandleId)
    requires Enabled(s, e) && !Violates(s, e) && Touches(e)
    ensures Balanced(s, Apply(s, e), e.a, x)
  {
    hide Recycle, BadRecycle, AfterRecycle, Grabbed, Unlock;
  }

  lemma RecycleBalance(s: State, x: HandleId, y: HandleId)
    requires Has(s, x) && !BadRecycle(s, x)
    ensures var s' := Recycle(s, x);
            RefsOf(s', y) == RefsOf(s, y) && Unused(s', y) == Unused(s, y)
            && multiset(s'.recycle)[y] == multiset(s.recycle)[y] + Bit(x == y)
  {
  }

  lemma BalancedRecycleUnlocked(s: State, e: Event, x: HandleId)
    requires Enabled(s, e) && !Violates(s, e) && e.RecycleUnlocked?
    ensures Balanced(s, Apply(s, e), e.a, x)
  {
    RecycleBalance(s, s.agents[e.a].h, x);
  }

  lemma BalancedRecycleLocked(s: State, e: Event, x: HandleId)
    requires Enabled(s, e) && !Violates(s, e) && e.RecycleLocked?
    ensures Balanced(s, Apply(s, e), e.a, x)
  {
    RecycleBalance(s, s.agents[e.a].ToRecycle().value, x);
  }

  lemma BalancedErase(s: State, e: Event, x: HandleId)
    requires Enabled(s, e) && !Violates(s, e) && (e.EraseLock? || e.EraseUnset?)
    ensures Balanced(s, Apply(s, e), e.a, x)
  {
    hide Recycle, BadRecycle, AfterRecycle, Grabbed;
  }

  lemma BalancedClear(s: State, e: Event, x: HandleId)
    requires Enabled(s, e) && !Violates(s, e) && (e.ClearLock? || e.ClearUnset?)
    ensures Balanced(s, Apply(s, e), e.a, x)
  {
    hide Recycle, BadRecycle, AfterRecycle, Grabbed;
  }

  lemma BalancedLock(s: State, e: Event, x: HandleId)
    requires Enabled(s, e) && !Violates(s, e) && (e.InsertLock? || e.InsertGiveUp?)
    ensures Balanced(s, Apply(s, e), e.a, x)
  {
    hide Recycle, BadRecycle, AfterRecycle, Grabbed;
  }

  lemma BalancedEvict(s: State, e: Event, x: HandleId)
    requires Enabled(s, e) && !Violates(s, e) && (e.EvictSuccess? || e.EvictFailure?)
    ensures Balanced(s, Apply(s, e), e.a, x)
  {
    hide Recycle, BadRecycle, AfterRecycle, Grabbed, Unlock;
  }

  lemma BalancedGrab(s: State, e: Event, x: HandleId)
    requires Enabled(s, e) && !Violates(s, e) && e.InsertGrab?
    ensures Balanced(s, Apply(s, e), e.a, x)
  {
    hide Recycle, BadRecycle, AfterRecycle, Unlock;
    if s.recycle != [] {
      LastPopped(s.recycle, x);
    }
  }

  lemma BalancedFill(s: State, e: Event, x: HandleId)
    requires Enabled(s, e) && !Violates(s, e) && (e.InsertFill? || e.InsertStore?)
    ensures Balanced(s, Apply(s, e), e.a, x)
  {
    hide Recycle, BadRecycle, AfterRecycle, Grabbed, Unlock;
  }

  lemma BalancedPublish(s: State, e: Event, x: HandleId)
    requires Enabled(s, e) && !Violates(s, e) && (e.InsertReplace? || e.OverwriteUnset? || e.InsertFinish?)
    ensures Balanced(s, Apply(s, e), e.a, x)
  {
    hide Recycle, BadRecycle, AfterRecycle, Grabbed, Unlock;
  }

  lemma AgentsAfterRemoval(s: State, e: Event)
    requires Enabled(s, e) && !Violates(s, e)
    requires Removal(e)
    ensures e.a in Apply(s, e).agents && Apply(s, e).agents == s.agents[e.a := Apply(s, e).agents[e.a]]
  {
  }

  lemma AgentsAfterInsert(s: State, e: Event)
    requires Enabled(s, e) && !Violates(s, e)
    requires Admission(e) || Publication(e)
    ensures e.a in Apply(s, e).agents && Apply(s, e).agents == s.agents[e.a := Apply(s, e).agents[e.a]]
  {
    hide Recycle, BadRecycle, AfterRecycle;
  }

  lemma AgentsAfterStep(s: State, e: Event)
    requires Enabled(s, e) && !Violates(s, e)
    ensures e.a in Apply(s, e).agents && Apply(s, e).agents == s.agents[e.a := Apply(s, e).agents[e.a]]
  {
    hide Enabled, Violates, Apply;
    if LockFree(e) {
      LockFreeStep(s, e);
    } else if Removal(e) {
      AgentsAfterRemoval(s, e);
    } else {
      AgentsAfterInsert(s, e);
    }
  }

  lemma CountsAfterStep(s: State, e: Event, x: HandleId)
    requires Enabled(s, e) && !Violates(s, e) && CountedAt(s, x) && RecycledOnceAt(s, x)
    ensures CountedAt(Apply(s, e), x) && RecycledOnceAt(Apply(s, e), x)
  {
    AgentsAfterStep(s, e);
    AgentUpdate(s.agents, e.a, Apply(s, e).agents[e.a], x);
    if Looks(e) {
      BalancedLooking(s, e, x);
    } else if Touches(e) {
      BalancedTouching(s, e, x);
    } else if e.RecycleUnlocked? {
      BalancedRecycleUnlocked(s, e, x);
    } else if e.RecycleLocked? {
      BalancedRecycleLocked(s, e, x);
    } else if e.EraseLock? || e.EraseUnset? {
      BalancedErase(s, e, x);
    } else if Erasure(e) {
      BalancedClear(s, e, x);
    } else if e.InsertLock? || e.InsertGiveUp? {
      BalancedLock(s, e, x);
    } else if e.InsertGrab? {
      BalancedGrab(s, e, x);
    } else if Admission(e) {
      BalancedEvict(s, e, x);
    } else if e.InsertFill? || e.InsertStore? {
      BalancedFill(s, e, x);
    } else {
      BalancedPublish(s, e, x);
    }
  }

  // ----- The other parts of the invariant -----

  /** The handle a step changes. */
  function Target(s: State, e: Event): Option<HandleId>
    requires Enabled(s, e)
  {
    var pc := s.agents[e.a];
    match e
    case ClearUnset(_) => Some(pc.next)
    case EvictSuccess(_, x) => Some(x)
    case OverwriteUnset(_) => Some(pc.existing)
    case RecycleLocked(_) => pc.ToRecycle()
    case InsertGrab(_) => Some(Grabbed(s))
    case TableFind(_, k) => if k in s.table then Some(s.table[k]) else None
    case EraseLock(_, k) => if k in s.table then Some(s.table[k]) else None
    case InsertReplace(_) => if pc.wanted in s.table then Some(s.table[pc.wanted]) else None
    case FetchSub(_) => Some(pc.h)
    case RecycleUnlocked(_) => Some(pc.h)
    case EraseUnset(_) => Some(pc.h)
    case _ => None
  }

  predicate ContentsKept(s: State, s': State, x: HandleId)
    requires Has(s, x)
  {
    Has(s', x) && s'.list[x].key == s.list[x].key && s'.list[x].value == s.list[x].value
  }

  /** An agent's reference and the handle it is responsible for are in the counts. */
  predicate ShareOk(s: State, pc: Pc) {
    && (pc.Reference().Some? ==> InUse(s, pc.Reference().value) && s.list[pc.Reference().value].refs > 0)
    && (pc.Pending().Some? ==> Unused(s, pc.Pending().value) && pc.Pending().value !in s.recycle)
  }

  lemma ShareFacts(s: State, a: Agent)
    requires Counted(s) && a in s.agents
    ensures ShareOk(s, s.agents[a])
  {
    var pc := s.agents[a];
    if pc.Reference().Some? {
      assert CountedAt(s, pc.Reference().value) && RecycledOnceAt(s, pc.Reference().value);
      AgentCounts(s, a, pc.Reference().value);
    }
    if pc.Pending().Some? {
      assert CountedAt(s, pc.Pending().value) && RecycledOnceAt(s, pc.Pending().value);
      AgentCounts(s, a, pc.Pending().value);
    }
  }

  /** What a step depends on: facts about its agent, the mutex holder and the handle it changes. */
  predicate ActorReady(s: State, e: Event)
    requires Enabled(s, e)
  {
    var pc, x := s.agents[e.a], Target(s, e);
    && AgentOk(s, e.a, pc)
    && (pc.Locked() ==> s.mutex == Some(e.a) && Owner(s) == pc)
    && (s.mutex.None? ==> Owner(s) == Idle)
    && (s.mutex.Some? ==> s.mutex.value in s.agents)
    && ShareOk(s, pc)
    && (x.Some? && Has(s, x.value) ==> HandleOk(s, x.value))
    && (e.InsertGrab? && s.recycle != [] ==> Has(s, Grabbed(s)) && Grabbed(s) in s.recycle)
    && (e.InsertLock? ==> s.nextTicket !in s.home && s.nextTicket !in s.deleted)
    && (e.TableFind? && e.k in s.table ==> TableOk(s, e.k))
    && (e.EraseLock? && e.k in s.table ==> TableOk(s, e.k))
    && ((e.InsertStore? || e.InsertReplace?) && pc.wanted in s.table ==> TableOk(s, pc.wanted))
    && (x.Some? && Has(s, x.value) && s.list[x.value].value.Some? ==> s.list[x.value].value.value !in s.deleted)
  }

  lemma ActorFacts(s: State, e: Event)
    requires Inv(s) && Enabled(s, e)
    ensures ActorReady(s, e)
  {
    ShareFacts(s, e.a);
    if e.InsertGrab? && s.recycle != [] {
      GrabbedIsUnused(s);
    }
  }

  lemma GrabbedIsUnused(s: State)
    requires Counted(s) && s.recycle != []
    ensures Has(s, Grabbed(s)) && !InUse(s, Grabbed(s)) && Grabbed(s) in s.recycle
  {
    assert Grabbed(s) in multiset(s.recycle);
    assert RecycledOnceAt(s, Grabbed(s));
  }

  lemma NoViolation(s: State, e: Event)
    requires Enabled(s, e) && ActorReady(s, e)
    ensures !Violates(s, e)
  {
  }

  /** Two agents are never responsible for the same unused handle. */
  lemma OneKeeper(s: State, a: Agent, b: Agent, x: HandleId)
    requires RecycledOnceAt(s, x) && a in s.agents && b in s.agents && a != b
    requires s.agents[a].Pending() == Some(x)
    ensures s.agents[b].Pending() != Some(x)
  {
    var keepers := Keepers(s.agents, x);
    assert a in keepers;
    assert |keepers - {a}| == |keepers| - 1 == 0;
    assert b !in keepers;
  }

  lemma HandleAfterRecycle(s: State, e: Event, x: HandleId)
    requires Enabled(s, e) && ActorReady(s, e) && !Violates(s, e) && e.RecycleUnlocked?
    requires Has(Apply(s, e), x)
    requires Has(s, x) ==> HandleOk(s, x)
    ensures HandleOk(Apply(s, e), x)
  {
  }

  lemma HandleAfterRecycleLocked(s: State, e: Event, x: HandleId)
    requires Enabled(s, e) && ActorReady(s, e) && !Violates(s, e) && e.RecycleLocked?
    requires Has(Apply(s, e), x)
    requires Has(s, x) ==> HandleOk(s, x)
    ensures HandleOk(Apply(s, e), x)
  {
  }

  lemma HandleAfterErase(s: State, e: Event, x: HandleId)
    requires Enabled(s, e) && ActorReady(s, e) && !Violates(s, e)
             && (e.EraseLock? || e.EraseUnset? || e.ClearLock? || e.ClearUnset?)
    requires Has(Apply(s, e), x)
    requires Has(s, x) ==> HandleOk(s, x)
    ensures HandleOk(Apply(s, e), x)
  {
    hide Recycle, BadRecycle, AfterRecycle;
  }

  lemma TicketAfterRecycle(s: State, e: Event, t: Ticket)
    requires Enabled(s, e) && ActorReady(s, e) && !Violates(s, e) && Recycling(e)
    requires t in Apply(s, e).home
    requires t in s.home ==> TicketOk(s, t)
    ensures TicketOk(Apply(s, e), t)
  {
  }

  lemma TicketAfterErase(s: State, e: Event, t: Ticket)
    requires Enabled(s, e) && ActorReady(s, e) && !Violates(s, e) && Erasure(e)
    requires t in Apply(s, e).home
    requires t in s.home ==> TicketOk(s, t)
    ensures TicketOk(Apply(s, e), t)
  {
    hide Recycle, BadRecycle, AfterRecycle;
  }

  lemma TableAfterRecycle(s: State, e: Event, k: Key)
    requires Enabled(s, e) && ActorReady(s, e) && !Violates(s, e) && Recycling(e)
    requires k in Apply(s, e).table
    requires k in s.table ==> TableOk(s, k)
    ensures TableOk(Apply(s, e), k)
  {
  }

  lemma TableAfterErase(s: State, e: Event, k: Key)
    requires Enabled(s, e) && ActorReady(s, e) && !Violates(s, e) && Erasure(e)
    requires k in Apply(s, e).table
    requires k in s.table ==> TableOk(s, k)
    ensures TableOk(Apply(s, e), k)
  {
    hide Recycle, BadRecycle, AfterRecycle;
  }

  lemma ActorAfterRecycle(s: State, e: Event)
    requires Enabled(s, e) && ActorReady(s, e) && !Violates(s, e) && e.RecycleUnlocked?
    ensures AgentOk(Apply(s, e), e.a, Apply(s, e).agents[e.a])
  {
  }

  lemma ActorAfterRecycleLocked(s: State, e: Event)
    requires Enabled(s, e) && ActorReady(s, e) && !Violates(s, e) && e.RecycleLocked?
    ensures AgentOk(Apply(s, e), e.a, Apply(s, e).agents[e.a])
  {
  }

  lemma ActorAfterErase(s: State, e: Event)
    requires Enabled(s, e) && ActorReady(s, e) && !Violates(s, e) && (e.EraseLock? || e.EraseUnset?)
    ensures AgentOk(Apply(s, e), e.a, Apply(s, e).agents[e.a])
  {
  }

  lemma ActorAfterClear(s: State, e: Event)
    requires Enabled(s, e) && ActorReady(s, e) && !Violates(s, e) && (e.ClearLock? || e.ClearUnset?)
    ensures AgentOk(Apply(s, e), e.a, Apply(s, e).agents[e.a])
  {
  }

  lemma ContentsRecycling(s: State, e: Event, x: HandleId)
    requires Enabled(s, e) && ActorReady(s, e) && !Violates(s, e) && Recycling(e)
    requires Has(s, x) && s.agents[e.a].Pending() != Some(x)
    ensures ContentsKept(s, Apply(s, e), x)
  {
  }

  lemma ContentsErasure(s: State, e: Event, x: HandleId)
    requires Enabled(s, e) && ActorReady(s, e) && !Violates(s, e) && Erasure(e)
    requires Has(s, x) && s.agents[e.a].Pending() != Some(x)
    ensures ContentsKept(s, Apply(s, e), x)
  {
  }

  lemma HandleAfterAdmission(s: State, e: Event, x: HandleId)
    requires Enabled(s, e) && ActorReady(s, e) && !Violates(s, e) && Admission(e)
    requires Has(Apply(s, e), x)
    requires Has(s, x) ==> HandleOk(s, x)
    ensures HandleOk(Apply(s, e), x)
  {
    hide Recycle, BadRecycle, AfterRecycle;
  }

  lemma TicketAfterAdmission(s: State, e: Event, t: Ticket)
    requires Enabled(s, e) && ActorReady(s, e) && !Violates(s, e) && Admission(e)
    requires t in Apply(s, e).home
    requires t in s.home ==> TicketOk(s, t)
    ensures TicketOk(Apply(s, e), t)
  {
    hide Recycle, BadRecycle, AfterRecycle;
  }

  lemma TableAfterAdmission(s: State, e: Event, k: Key)
    requires Enabled(s, e) && ActorReady(s, e) && !Violates(s, e) && Admission(e)
    requires k in Apply(s, e).table
    requires k in s.table ==> TableOk(s, k)
    ensures TableOk(Apply(s, e), k)
  {
    hide Recycle, BadRecycle, AfterRecycle;
  }

  lemma ActorAfterLock(s: State, e: Event)
    requires Enabled(s, e) && ActorReady(s, e) && !Violates(s, e) && (e.InsertLock? || e.InsertGiveUp?)
    ensures AgentOk(Apply(s, e), e.a, Apply(s, e).agents[e.a])
  {
  }

  lemma ActorAfterEvict(s: State, e: Event)
    requires Enabled(s, e) && ActorReady(s, e) && !Violates(s, e)
             && (e.EvictSuccess? || e.EvictFailure? || e.InsertGrab?)
    ensures AgentOk(Apply(s, e), e.a, Apply(s, e).agents[e.a])
  {
  }

  lemma ContentsAdmission(s: State, e: Event, x: HandleId)
    requires Enabled(s, e) && ActorReady(s, e) && !Violates(s, e) && Admission(e)
    requires Has(s, x) && s.agents[e.a].Pending() != Some(x)
    ensures ContentsKept(s, Apply(s, e), x)
  {
  }

  lemma HandleAfterFill(s: State, e: Event, x: HandleId)
    requires Enabled(s, e) && ActorReady(s, e) && !Violates(s, e) && (e.InsertFill? || e.InsertStore?)
    requires Has(Apply(s, e), x)
    requires Has(s, x) ==> HandleOk(s, x)
    ensures HandleOk(Apply(s, e), x)
  {
  }

  lemma HandleAfterPublication(s: State, e: Event, x: HandleId)
    requires Enabled(s, e) && ActorReady(s, e) && !Violates(s, e) && Publication(e) && !e.InsertFill? && !e.InsertStore?
    requires Has(Apply(s, e), x)
    requires Has(s, x) ==> HandleOk(s, x)
    ensures HandleOk(Apply(s, e), x)
  {
    hide Recycle, BadRecycle, AfterRecycle;
  }

  lemma TicketAfterPublication(s: State, e: Event, t: Ticket)
    requires Enabled(s, e) && ActorReady(s, e) && !Violates(s, e) && Publication(e)
    requires t in Apply(s, e).home
    requires t in s.home ==> TicketOk(s, t)
    ensures TicketOk(Apply(s, e), t)
  {
    hide Recycle, BadRecycle, AfterRecycle;
  }

  lemma TableAfterPublication(s: State, e: Event, k: Key)
    requires Enabled(s, e) && ActorReady(s, e) && !Violates(s, e) && Publication(e)
    requires k in Apply(s, e).table
    requires k in s.table ==> TableOk(s, k)
    ensures TableOk(Apply(s, e), k)
  {
    hide Recycle, BadRecycle, AfterRecycle;
  }

  lemma ActorAfterFill(s: State, e: Event)
    requires Enabled(s, e) && ActorReady(s, e) && !Violates(s, e) && (e.InsertFill? || e.InsertStore?)
    ensures AgentOk(Apply(s, e), e.a, Apply(s, e).agents[e.a])
  {
  }

  lemma ActorAfterReplace(s: State, e: Event)
    requires Enabled(s, e) && ActorReady(s, e) && !Violates(s, e) && e.InsertReplace?
    ensures AgentOk(Apply(s, e), e.a, Apply(s, e).agents[e.a])
  {
  }

  lemma ActorAfterOverwrite(s: State, e: Event)
    requires Enabled(s, e) && ActorReady(s, e) && !Violates(s, e) && e.OverwriteUnset?
    ensures AgentOk(Apply(s, e), e.a, Apply(s, e).agents[e.a])
  {
  }

  lemma ActorAfterFinish(s: State, e: Event)
    requires Enabled(s, e) && ActorReady(s, e) && !Violates(s, e) && e.InsertFinish?
    ensures AgentOk(Apply(s, e), e.a, Apply(s, e).agents[e.a])
  {
  }

  lemma ContentsPublication(s: State, e: Event, x: HandleId)
    requires Enabled(s, e) && ActorReady(s, e) && !Violates(s, e) && Publication(e)
    requires Has(s, x) && s.agents[e.a].Pending() != Some(x)
    ensures ContentsKept(s, Apply(s, e), x)
  {
  }

  /** A lock-free step keeps everything but the agent's own position trivially. */
  lemma InvAfterLockFree(s: State, e: Event)
    requires Inv(s) && Enabled(s, e) && !Violates(s, e) && LockFree(e)
    ensures var s' := Apply(s, e); HandlesOk(s') && TicketsOk(s') && TableEntriesOk(s')
  {
    hide Violates, Enabled, Apply, Counted;
    LockFreeStep(s, e);
    var s' := Apply(s, e);
    assert Owner(s') == Owner(s);
    forall x | 0 <= x < |s'.list|
      ensures s'.list[x].key == s.list[x].key && s'.list[x].value == s.list[x].value
              && s'.list[x].inCache == s.list[x].inCache && HandleOk(s', x)
    {
      assert SameHandle(s, s', x) && HandleOk(s, x);
    }
    forall t | t in s'.home
      ensures TicketOk(s', t)
    {
      assert TicketOk(s, t);
    }
    forall k | k in s'.table
      ensures TableOk(s', k)
    {
      assert TableOk(s, k);
    }
  }

  lemma ActorAfterLooking(s: State, e: Event)
    requires Enabled(s, e) && ActorReady(s, e) && !Violates(s, e) && Looks(e)
    ensures AgentOk(Apply(s, e), e.a, Apply(s, e).agents[e.a])
  {
  }

  lemma ActorAfterTouching(s: State, e: Event)
    requires Enabled(s, e) && ActorReady(s, e) && !Violates(s, e) && Touches(e)
    ensures AgentOk(Apply(s, e), e.a, Apply(s, e).agents[e.a])
  {
    hide Recycle, BadRecycle, AfterRecycle;
  }

  /** The key and value of a handle change only in a step of the agent that is responsible for it. */
  lemma ContentsAfterStep(s: State, e: Event, x: HandleId)
    requires Inv(s) && Enabled(s, e) && !Violates(s, e) && Has(s, x) && s.agents[e.a].Pending() != Some(x)
    ensures ContentsKept(s, Apply(s, e), x)
  {
    ActorFacts(s, e);
    if LockFree(e) {
      LockFreeStep(s, e);
    } else if Recycling(e) {
      ContentsRecycling(s, e, x);
    } else if Erasure(e) {
      ContentsErasure(s, e, x);
    } else if Admission(e) {
      ContentsAdmission(s, e, x);
    } else {
      ContentsPublication(s, e, x);
    }
  }

  lemma MutexAfterStep(s: State, e: Event)
    requires Enabled(s, e) && !Violates(s, e)
    ensures var s' := Apply(s, e); s'.mutex.None? || s'.mutex == s.mutex || s'.mutex == Some(e.a)
  {
  }

  /** What an agent relies on that does not hold the mutex. */
  lemma UnlockedAgentAfterStep(s: State, e: Event, b: Agent)
    requires Inv(s) && Enabled(s, e) && !Violates(s, e) && b in s.agents && b != e.a && !s.agents[b].Locked()
    ensures AgentOk(Apply(s, e), b, s.agents[b])
  {
    var pc := s.agents[b];
    assert AgentOk(s, b, pc);
    MutexAfterStep(s, e);
    if pc.Found? || pc.Holding? || pc.MustRecycle? {
      assert CountedAt(s, pc.h) && RecycledOnceAt(s, pc.h);
      AgentCounts(s, b, pc.h);
      if s.agents[e.a].Pending() == Some(pc.h) {
        AgentCounts(s, e.a, pc.h);
        OneKeeper(s, e.a, b, pc.h);
        ListOnlyGrows(s, e);
      } else {
        ContentsAfterStep(s, e, pc.h);
      }
    }
  }

  lemma ListOnlyGrows(s: State, e: Event)
    requires Enabled(s, e) && !Violates(s, e)
    ensures |s.list| <= |Apply(s, e).list|
  {
  }

  /** While an agent holds the mutex the others only take lock-free steps, and what the holder relies on stays. */
  lemma LockedAgentAfterStep(s: State, e: Event, b: Agent)
    requires AgentsOk(s) && Enabled(s, e) && !Violates(s, e) && b in s.agents && b != e.a && s.agents[b].Locked()
    ensures AgentOk(Apply(s, e), b, s.agents[b])
  {
    hide Violates, Enabled, Apply;
    OthersAreLockFree(s, e, b);
    LockFreeStep(s, e);
    var s' := Apply(s, e);
    forall x | 0 <= x < |s'.list|
      ensures s'.list[x].key == s.list[x].key && s'.list[x].value == s.list[x].value
              && s'.list[x].inCache == s.list[x].inCache
    {
      assert SameHandle(s, s', x);
    }
  }

  lemma OthersAreLockFree(s: State, e: Event, b: Agent)
    requires AgentsOk(s) && Enabled(s, e) && b in s.agents && b != e.a && s.agents[b].Locked()
    ensures LockFree(e) && AgentOk(s, b, s.agents[b])
  {
    assert AgentOk(s, b, s.agents[b]) && AgentOk(s, e.a, s.agents[e.a]);
  }

  lemma CountedAfterStep(s: State, e: Event)
    requires Inv(s) && Enabled(s, e) && !Violates(s, e)
    ensures Counted(Apply(s, e))
  {
    forall x
      ensures CountedAt(Apply(s, e), x) && RecycledOnceAt(Apply(s, e), x)
    {
      assert CountedAt(s, x) && RecycledOnceAt(s, x);
      CountsAfterStep(s, e, x);
    }
  }

  lemma HandlesAfterStep(s: State, e: Event)
    requires Inv(s) && Enabled(s, e) && !Violates(s, e) && !LockFree(e)
    ensures HandlesOk(Apply(s, e))
  {
    ActorFacts(s, e);
    forall x | 0 <= x < |Apply(s, e).list|
      ensures HandleOk(Apply(s, e), x)
    {
      if e.RecycleUnlocked? {
        HandleAfterRecycle(s, e, x);
      } else if e.RecycleLocked? {
        HandleAfterRecycleLocked(s, e, x);
      } else if Removal(e) {
        HandleAfterErase(s, e, x);
      } else if Admission(e) {
        HandleAfterAdmission(s, e, x);
      } else if e.InsertFill? || e.InsertStore? {
        HandleAfterFill(s, e, x);
      } else {
        HandleAfterPublication(s, e, x);
      }
    }
  }

  lemma TicketsAfterStep(s: State, e: Event)
    requires Inv(s) && Enabled(s, e) && !Violates(s, e) && !LockFree(e)
    ensures TicketsOk(Apply(s, e))
  {
    ActorFacts(s, e);
    forall t | t in Apply(s, e).home
      ensures TicketOk(Apply(s, e), t)
    {
      if Recycling(e) {
        TicketAfterRecycle(s, e, t);
      } else if Erasure(e) {
        TicketAfterErase(s, e, t);
      } else if Admission(e) {
        TicketAfterAdmission(s, e, t);
      } else {
        TicketAfterPublication(s, e, t);
      }
    }
    if Removal(e) {
      DeletedAfterRemoval(s, e);
    } else {
      DeletedAfterInsert(s, e);
    }
  }

  lemma DeletedAfterRemoval(s: State, e: Event)
    requires Enabled(s, e) && !Violates(s, e) && ActorReady(s, e) && TicketsOk(s)
    requires Removal(e)
    ensures forall t | t in Apply(s, e).deleted :: t < Apply(s, e).nextTicket
  {
  }

  lemma DeletedAfterInsert(s: State, e: Event)
    requires Enabled(s, e) && !Violates(s, e) && ActorReady(s, e) && TicketsOk(s)
    requires Admission(e) || Publication(e)
    ensures forall t | t in Apply(s, e).deleted :: t < Apply(s, e).nextTicket
  {
    hide Recycle, BadRecycle, AfterRecycle;
  }

  lemma TableAfterStep(s: State, e: Event)
    requires Inv(s) && Enabled(s, e) && !Violates(s, e) && !LockFree(e)
    ensures TableEntriesOk(Apply(s, e))
  {
    ActorFacts(s, e);
    forall k | k in Apply(s, e).table
      ensures TableOk(Apply(s, e), k)
    {
      if Recycling(e) {
        TableAfterRecycle(s, e, k);
      } else if Erasure(e) {
        TableAfterErase(s, e, k);
      } else if Admission(e) {
        TableAfterAdmission(s, e, k);
      } else {
        TableAfterPublication(s, e, k);
      }
    }
  }

  lemma ActorAfterStep(s: State, e: Event)
    requires Enabled(s, e) && !Violates(s, e) && ActorReady(s, e)
    ensures AgentOk(Apply(s, e), e.a, Apply(s, e).agents[e.a])
  {
    if Looks(e) {
      ActorAfterLooking(s, e);
    } else if Touches(e) {
      ActorAfterTouching(s, e);
    } else if e.RecycleUnlocked? {
      ActorAfterRecycle(s, e);
    } else if e.RecycleLocked? {
      ActorAfterRecycleLocked(s, e);
    } else if e.EraseLock? || e.EraseUnset? {
      ActorAfterErase(s, e);
    } else if Removal(e) {
      ActorAfterClear(s, e);
    } else if e.InsertLock? || e.InsertGiveUp? {
      ActorAfterLock(s, e);
    } else if Admission(e) {
      ActorAfterEvict(s, e);
    } else if e.InsertFill? || e.InsertStore? {
      ActorAfterFill(s, e);
    } else if e.InsertReplace? {
      ActorAfterReplace(s, e);
    } else if e.OverwriteUnset? {
      ActorAfterOverwrite(s, e);
    } else {
      ActorAfterFinish(s, e);
    }
  }

  lemma AgentsOkAfterStep(s: State, e: Event)
    requires Inv(s) && Enabled(s, e) && !Violates(s, e)
    ensures AgentsOk(Apply(s, e))
  {
    ActorFacts(s, e);
    AgentsAfterStep(s, e);
    MutexAfterStep(s, e);
    forall b | b in Apply(s, e).agents
      ensures AgentOk(Apply(s, e), b, Apply(s, e).agents[b])
    {
      if b == e.a {
        ActorAfterStep(s, e);
      } else if s.agents[b].Locked() {
        LockedAgentAfterStep(s, e, b);
      } else {
        UnlockedAgentAfterStep(s, e, b);
      }
    }
  }

  /** Every atomic step of every agent keeps the invariant, and no assert of the source can fail at it. */
  lemma StepKeepsInv(s: State, e: Event)
    requires Inv(s) && Enabled(s, e)
    ensures !Violates(s, e) && Inv(Apply(s, e))
  {
    ActorFacts(s, e);
    NoViolation(s, e);
    CountedAfterStep(s, e);
    AgentsOkAfterStep(s, e);
    if LockFree(e) {
      InvAfterLockFree(s, e);
    } else {
      HandlesAfterStep(s, e);
      TicketsAfterStep(s, e);
      TableAfterStep(s, e);
    }
  }

  // ----- Whole runs -----

  /** A run: each event is enabled where it happens. */
  ghost predicate Run(s: State, events: seq<Event>, s': State)
    decreases |events|
  {
    if events == [] then s == s'
    else Enabled(s, events[0]) && !Violates(s, events[0]) && Run(Apply(s, events[0]), events[1..], s')
  }

  lemma InitKeepsInv(s: State)
    requires Init(s)
    ensures Inv(s)
  {
    forall x
      ensures CountedAt(s, x) && RecycledOnceAt(s, x)
    {
      assert Referrers(s.agents, x) == {} && Keepers(s.agents, x) == {};
    }
  }

  lemma {:induction false} RunKeepsInv(s: State, events: seq<Event>, s': State)
    requires Inv(s) && Run(s, events, s')
    ensures Inv(s')
    decreases |events|
  {
    if events != [] {
      StepKeepsInv(s, events[0]);
      RunKeepsInv(Apply(s, events[0]), events[1..], s');
    }
  }

  /** Main result. After any interleaving of lookups, releases, erases, evictions and inserts: the counter of a
      handle is the number of agents that refer to it; a handle out of the cache without references is in the
      recycle bin exactly once or exactly one agent is about to put it there or to fill it, and no other handle is;
      whatever step comes next, its assert holds. */
  lemma SafeAtEveryStep(s0: State, events: seq<Event>, s: State)
    requires Init(s0) && Run(s0, events, s)
    ensures forall x | 0 <= x < |s.list| :: s.list[x].refs == |Referrers(s.agents, x)|
    ensures forall x | 0 <= x < |s.list| :: RecycledOnceAt(s, x)
    ensures forall e | Enabled(s, e) :: !Violates(s, e)
  {
    InitKeepsInv(s0);
    RunKeepsInv(s0, events, s);
    forall x | 0 <= x < |s.list|
      ensures s.list[x].refs == |Referrers(s.agents, x)|
    {
      assert CountedAt(s, x);
    }
    forall e | Enabled(s, e)
      ensures !Violates(s, e)
    {
      ActorFacts(s, e);
      NoViolation(s, e);
    }
  }

  /** An agent that holds a handle for key `k` sees the key and the value it looked up, whatever the others do. */
  lemma {:induction false} HeldUntilRelease(s: State, events: seq<Event>, s': State, a: Agent)
    requires Inv(s) && Run(s, events, s')
    requires a in s.agents && s.agents[a].Holding?
    requires forall i | 0 <= i < |events| :: events[i].a != a
    ensures a in s'.agents && s'.agents[a] == s.agents[a]
    ensures var pc := s.agents[a]; Carries(s', pc.h, pc.wanted, pc.ticket) && pc.ticket !in s'.deleted
    decreases |events|
  {
    if events == [] {
      var pc := s.agents[a];
      assert AgentOk(s, a, pc);
      assert HandleOk(s, pc.h) && TicketOk(s, pc.ticket);
    } else {
      var e := events[0];
      StepKeepsInv(s, e);
      AgentsAfterStep(s, e);
      HeldUntilRelease(Apply(s, e), events[1..], s', a);
    }
  }

  /** Lookup returns a handle only for the key it was asked for, even if the handle was evicted and reused between
      the table lookup and the reference; it gives up the reference otherwise. */
  lemma LookupChecksKey(s: State, e: Event)
    requires Inv(s) && Enabled(s, e) && !Violates(s, e) && e.CheckKey?
    ensures var pc := s.agents[e.a];
            var pc' := Apply(s, e).agents[e.a];
            && Has(s, pc.h)
            && (s.list[pc.h].key == Some(pc.wanted) <==> pc'.Holding?)
            && (pc'.Holding? ==> pc'.h == pc.h && Carries(s, pc.h, pc.wanted, pc'.ticket) && pc'.ticket !in s.deleted)
            && (!pc'.Holding? ==> pc' == Mismatch(pc.h))
  {
    ActorFacts(s, e);
    var x := s.agents[e.a].h;
    assert HandleOk(s, x);
    if s.list[x].value.Some? {
      assert TicketOk(s, s.list[x].value.value);
    }
  }

  /** The step an agent makes next, unless it waits for the mutex. */
  lemma NextStep(s: State, a: Agent) returns (e: Event)
    requires a in s.agents && !s.agents[a].Idle? && (s.agents[a].MustRecycle? ==> s.mutex.None?)
    requires AgentOk(s, a, s.agents[a]) && ShareOk(s, s.agents[a])
    ensures Enabled(s, e) && e.a == a
  {
    var pc := s.agents[a];
    e := match pc
      case Found(_, h) => if s.list[h].inCache then RefSuccess(a) else RefFailure(a)
      case Checking(_, _) => CheckKey(a)
      case Holding(_, _, _) => SetUsage(a)
      case MustRecycle(_) => RecycleUnlocked(a)
      case Erasing(_) => EraseUnset(a)
      case Clearing(_) => ClearUnset(a)
      case Evicting(_, _, _) => InsertGrab(a)
      case Filling(_, _, _, _) => InsertFill(a)
      case Filled(_, _, _, _) => InsertStore(a)
      case Stored(_, _, _, _) => InsertReplace(a)
      case Overwriting(_, _, _, _, _) => OverwriteUnset(a)
      case Inserting(_, _, _, _) => InsertFinish(a)
      case _ => if pc.Locked() then RecycleLocked(a) else FetchSub(a);
  }

  /** An operation past its start can always go on, unless it waits for the mutex; and the mutex is held by an agent in
      the middle of an operation, which can go on. So no run gets stuck. */
  lemma NeverStuck(s: State, a: Agent)
    requires Inv(s) && a in s.agents && !s.agents[a].Idle? && (s.agents[a].MustRecycle? ==> s.mutex.None?)
    ensures exists e :: Enabled(s, e) && !Violates(s, e) && e.a == a
    ensures s.mutex.Some? ==> s.mutex.value in s.agents && s.agents[s.mutex.value].Locked()
  {
    hide Violates, Enabled, ActorReady, ShareOk;
    assert AgentOk(s, a, s.agents[a]);
    ShareFacts(s, a);
    var e := NextStep(s, a);
    ActorFacts(s, e);
    NoViolation(s, e);
    if s.mutex.Some? {
      assert AgentOk(s, s.mutex.value, s.agents[s.mutex.value]);
    }
  }

  predicate InCacheWith(s: State, x: HandleId, t: Ticket) {
    Has(s, x) && s.list[x].inCache && s.list[x].value == Some(t)
  }

  /** When all agents are idle, every handle is either listed in the table under its key or once in the recycle
      bin, and exactly the values that are not in the table have been deleted. */
  lemma QuiescentCache(s: State)
    requires Inv(s) && forall a | a in s.agents :: s.agents[a].Idle?
    ensures s.mutex.None?
    ensures forall x | 0 <= x < |s.list| ::
              var h := s.list[x];
              if h.inCache then
                && h.refs == 0 && multiset(s.recycle)[x] == 0
                && h.key.Some? && h.key.value in s.table && s.table[h.key.value] == x
              else h.refs == 0 && multiset(s.recycle)[x] == 1
    ensures forall t | t in s.home :: t in s.deleted <==> !InCacheWith(s, s.home[t], t)
  {
    forall x | 0 <= x < |s.list|
      ensures s.list[x].refs == 0 && multiset(s.recycle)[x] == Bit(!s.list[x].inCache) && HandleOk(s, x)
    {
      assert CountedAt(s, x) && RecycledOnceAt(s, x);
      assert Referrers(s.agents, x) == {} && Keepers(s.agents, x) == {};
    }
    forall t | t in s.home
      ensures t in s.deleted <==> !InCacheWith(s, s.home[t], t)
    {
      assert TicketOk(s, t);
      var x := s.home[t];
      assert HandleOk(s, x);
      assert multiset(s.recycle)[x] == Bit(!s.list[x].inCache);
      if !s.list[x].inCache {
        assert x in s.recycle;
      }
    }
  }

  // ----- Usage -----

  function Sum(list: seq<Handle>, f: Handle -> nat): nat {
    if list == [] then 0 else Sum(list[..|list| - 1], f) + f(list[|list| - 1])
  }

  /** A handle that stores a value counts, in the cache or not. */
  function FilledCharge(h: Handle): nat {
    if h.value.Some? then h.charge else 0
  }

  function CachedCharge(h: Handle): nat {
    if h.inCache then h.charge else 0
  }

  /** What an insert has put into its handle and not counted yet. */
  function Uncounted(s: State, pc: Pc): nat {
    if pc.Filled? || pc.Stored? || pc.Overwriting? || pc.OverwriteRecycle? || pc.Inserting? then s.charges(pc.ticket)
    else 0
  }

  predicate ChargeOk(s: State, h: Handle) {
    h.value.Some? ==> h.charge == s.charges(h.value.value)
  }

  predicate UsageOk(s: State) {
    && s.usage + Uncounted(s, Owner(s)) == Sum(s.list, FilledCharge)
    && forall x | 0 <= x < |s.list| :: ChargeOk(s, s.list[x])
  }

  lemma {:induction false} SameSums(list: seq<Handle>, list': seq<Handle>, f: Handle -> nat, g: Handle -> nat)
    requires |list| == |list'| && forall i | 0 <= i < |list| :: f(list[i]) == g(list'[i])
    ensures Sum(list, f) == Sum(list', g)
  {
    if list != [] {
      SameSums(list[..|list| - 1], list'[..|list| - 1], f, g);
    }
  }

  /** A sum follows the change of one element. */
  lemma {:induction false} SumAfterUpdate(list: seq<Handle>, x: HandleId, h: Handle, f: Handle -> nat)
    requires x < |list|
    ensures Sum(list[x := h], f) + f(list[x]) == Sum(list, f) + f(h)
  {
    var n := |list| - 1;
    if x == n {
      assert list[x := h][..n] == list[..n];
    } else {
      SumAfterUpdate(list[..n], x, h, f);
      assert list[x := h][..n] == list[..n][x := h];
    }
  }

  lemma {:induction false} ElementWithinSum(list: seq<Handle>, x: HandleId, f: Handle -> nat)
    requires x < |list|
    ensures f(list[x]) <= Sum(list, f)
  {
    if x < |list| - 1 {
      ElementWithinSum(list[..|list| - 1], x, f);
    }
  }

  /** The steps that change what a handle stores, or count it. */
  predicate Counts(e: Event) {
    Recycling(e) || e.InsertFill? || e.InsertGrab? || e.InsertFinish?
  }

  lemma StoredByOthers(s: State, e: Event, x: HandleId)
    requires Enabled(s, e) && !Violates(s, e) && (Erasure(e) || Admission(e) || Publication(e)) && !Counts(e)
    ensures var s' := Apply(s, e);
            && |s'.list| == |s.list| && s'.usage == s.usage && s'.charges == s.charges
            && (x < |s.list| ==> s'.list[x].value == s.list[x].value && s'.list[x].charge == s.list[x].charge)
  {
    hide Recycle, BadRecycle, AfterRecycle;
  }

  /** Only an insert has something uncounted, and only from filling its handle to counting it. */
  lemma UncountedByOthers(s: State, e: Event)
    requires Enabled(s, e) && ActorReady(s, e) && !Violates(s, e)
    requires (Erasure(e) || Admission(e) || Publication(e)) && !Counts(e)
    ensures Uncounted(Apply(s, e), Owner(Apply(s, e))) == Uncounted(s, Owner(s))
  {
  }

  lemma UsageAfterRecycle(s: State, e: Event)
    requires Enabled(s, e) && ActorReady(s, e) && !Violates(s, e) && e.RecycleUnlocked? && UsageOk(s)
    ensures UsageOk(Apply(s, e))
  {
    var x := s.agents[e.a].h;
    SumAfterUpdate(s.list, x, s.list[x].(key := None, value := None), FilledCharge);
  }

  lemma UsageAfterRecycleLocked(s: State, e: Event)
    requires Enabled(s, e) && ActorReady(s, e) && !Violates(s, e) && e.RecycleLocked? && UsageOk(s)
    ensures UsageOk(Apply(s, e))
  {
    var x := s.agents[e.a].ToRecycle().value;
    SumAfterUpdate(s.list, x, s.list[x].(key := None, value := None), FilledCharge);
  }

  lemma UsageAfterFill(s: State, e: Event)
    requires Enabled(s, e) && ActorReady(s, e) && !Violates(s, e) && e.InsertFill? && UsageOk(s)
    ensures UsageOk(Apply(s, e))
  {
    var x := s.agents[e.a].h;
    SumAfterUpdate(s.list, x, Apply(s, e).list[x], FilledCharge);
  }

  lemma UsageAfterGrab(s: State, e: Event)
    requires Enabled(s, e) && ActorReady(s, e) && !Violates(s, e) && e.InsertGrab? && UsageOk(s)
    ensures UsageOk(Apply(s, e))
  {
    if s.recycle == [] {
      assert Apply(s, e).list[..|s.list|] == s.list;
    }
  }

  lemma UsageAfterFinish(s: State, e: Event)
    requires Enabled(s, e) && ActorReady(s, e) && !Violates(s, e) && e.InsertFinish? && UsageOk(s)
    ensures UsageOk(Apply(s, e))
  {
  }

  lemma UsageAfterStep(s: State, e: Event)
    requires Inv(s) && UsageOk(s) && Enabled(s, e) && !Violates(s, e)
    ensures UsageOk(Apply(s, e))
  {
    hide Inv, Violates, Enabled, ActorReady, Apply, FilledCharge;
    ActorFacts(s, e);
    if e.RecycleUnlocked? {
      UsageAfterRecycle(s, e);
    } else if e.RecycleLocked? {
      UsageAfterRecycleLocked(s, e);
    } else if e.InsertFill? {
      UsageAfterFill(s, e);
    } else if e.InsertGrab? {
      UsageAfterGrab(s, e);
    } else if e.InsertFinish? {
      UsageAfterFinish(s, e);
    } else {
      UsageAfterOtherStep(s, e);
    }
  }

  lemma UsageAfterOtherStep(s: State, e: Event)
    requires Enabled(s, e) && ActorReady(s, e) && !Violates(s, e) && !Counts(e) && UsageOk(s)
    ensures UsageOk(Apply(s, e))
  {
    hide Violates, Enabled, Apply;
    var s' := Apply(s, e);
    if LockFree(e) {
      LockFreeStep(s, e);
      assert s.mutex != Some(e.a) && Owner(s') == Owner(s);
    } else {
      StoredByOthers(s, e, 0);
      UncountedByOthers(s, e);
    }
    forall x | 0 <= x < |s.list|
      ensures s'.list[x].value == s.list[x].value && s'.list[x].charge == s.list[x].charge
    {
      if LockFree(e) {
        assert SameHandle(s, s', x);
      } else {
        StoredByOthers(s, e, x);
      }
    }
    SameSums(s.list, s'.list, FilledCharge, FilledCharge);
    assert forall x | 0 <= x < |s.list| :: ChargeOk(s, s.list[x]);
  }

  lemma {:induction false} UsageAlongRun(s: State, events: seq<Event>, s': State)
    requires Inv(s) && UsageOk(s) && Run(s, events, s')
    ensures Inv(s') && UsageOk(s')
    decreases |events|
  {
    hide Inv, UsageOk, Enabled, Violates, Apply;
    if events != [] {
      StepKeepsInv(s, events[0]);
      UsageAfterStep(s, events[0]);
      UsageAlongRun(Apply(s, events[0]), events[1..], s');
    }
  }

  /** After any interleaving the usage is what the handles with a value count for, in the cache or still referenced,
      less what an insert in progress has yet to count; so it never goes below zero, and when an insert reads it to
      decide about evictions it is exact. */
  lemma UsageIsExact(s0: State, events: seq<Event>, s: State)
    requires Init(s0) && Run(s0, events, s)
    ensures s.usage + Uncounted(s, Owner(s)) == Sum(s.list, FilledCharge) && s.usage >= 0
    ensures s.mutex.None? || Owner(s).Evicting? ==> s.usage == Sum(s.list, FilledCharge)
  {
    hide Inv, Run;
    InitKeepsInv(s0);
    UsageAlongRun(s0, events, s);
    UncountedWithinSum(s);
  }

  lemma UncountedWithinSum(s: State)
    requires Inv(s) && UsageOk(s)
    ensures Uncounted(s, Owner(s)) <= Sum(s.list, FilledCharge)
  {
    hide Counted, HandlesOk, TicketsOk, TableEntriesOk;
    var pc := Owner(s);
    if Uncounted(s, pc) > 0 {
      assert AgentOk(s, s.mutex.value, pc);
      assert ChargeOk(s, s.list[pc.h]);
      ElementWithinSum(s.list, pc.h, FilledCharge);
    }
  }

  /** When all agents are idle the usage is what the entries in the cache count for. */
  lemma QuiescentUsage(s: State)
    requires Inv(s) && UsageOk(s) && forall a | a in s.agents :: s.agents[a].Idle?
    ensures s.usage == Sum(s.list, CachedCharge)
  {
    QuiescentCache(s);
    forall x | 0 <= x < |s.list|
      ensures FilledCharge(s.list[x]) == CachedCharge(s.list[x])
    {
      assert HandleOk(s, x);
      if !s.list[x].inCache {
        assert x in s.recycle;
      }
    }
    SameSums(s.list, s.list, FilledCharge, CachedCharge);
  }
}
