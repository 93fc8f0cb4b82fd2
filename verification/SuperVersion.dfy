/** The protocol that hands out SuperVersions: readers keep one in a thread-local slot and take it out and put
    it back without the mutex, while installers replace the current one and scrape the slots. The model is a
    state machine whose steps are the atomic accesses; a step that needs the DB mutex waits until no install
    holds it. */
module SuperVersions {
  import opened Wrappers
  import opened Counting

  type ThreadId = nat
  type SvId = nat
  type ClientRef = nat

  /** A thread-local pointer: kSVInUse, kSVObsolete, or a counted pointer to a SuperVersion. */
  datatype Slot = InUse | Obsolete | Cached(sv: SvId)

  /** Where a reader is in GetThreadLocalSuperVersion, ReturnThreadLocalSuperVersion and their callers. Every
      `local` is a counted pointer in a local variable; `attached` records whether the slot still showed kSVInUse
      when that reference was taken, from the slot or under the mutex. */
  datatype Pc =
    | Idle
    | Swapped(local: SvId)                                    // taken from the slot, version still to be checked
    | Stale(local: SvId)                                      // outdated, to be given up
    | MustCleanThenRef(dead: SvId)                            // gave up the last reference, waits for the mutex
    | NeedsCurrent                                            // waits for the mutex to reference the current one
    | Holding(local: SvId, attached: bool)
    | HoldingReferenced(local: SvId, attached: bool, client: ClientRef)       // with one more, for the caller
    | ReturnFailed(local: SvId, attached: bool)                               // the slot had been scraped
    | ReturnFailedReferenced(local: SvId, attached: bool, client: ClientRef)
    | MustClean(dead: SvId)
  {
    function Local(): Option<SvId> {
      if Swapped? || Stale? || Holding? || HoldingReferenced? || ReturnFailed? || ReturnFailedReferenced?
      then Some(local) else None
    }

    predicate Holds() {
      Holding? || HoldingReferenced?
    }

    predicate Failed() {
      ReturnFailed? || ReturnFailedReferenced?
    }

    /** Holds, or could not put back, a reference that was taken while the slot was in use. */
    predicate Attached() {
      Swapped? || ((Holds() || Failed()) && attached)
    }

    function Dead(): Option<SvId> {
      if MustClean? || MustCleanThenRef? then Some(dead) else None
    }

    /** The client reference a GetReferencedSuperVersion that has not returned yet is making. */
    function Client(): Option<ClientRef> {
      if HoldingReferenced? || ReturnFailedReferenced? then Some(client) else None
    }
  }

  /** One thread: its slot, the pointer an installer scraped from the slot and has yet to give up, its position. */
  datatype Thread = Thread(slot: Slot, scraped: Option<SvId>, pc: Pc)

  /** Where InstallSuperVersion is; it holds the DB mutex unless it is NotInstalling. */
  datatype Install =
    | NotInstalling
    | Published(previous: Option<SvId>)
    | Scraping(previous: Option<SvId>, remaining: set<ThreadId>)

  datatype State = State(
    refs: map<SvId, nat>,
    versionNumbers: map<SvId, nat>,
    cleaned: set<SvId>,
    current: Option<SvId>,
    currentNumber: nat,
    threads: map<ThreadId, Thread>,
    clients: map<ClientRef, SvId>,
    install: Install)

  datatype Event =
    | Swap(t: ThreadId)
    | CheckVersion(t: ThreadId)
    | UnrefStale(t: ThreadId)
    | CleanAndRefCurrent(t: ThreadId)
    | RefCurrent(t: ThreadId)
    | Return(t: ThreadId)
    | UnrefReturned(t: ThreadId)
    | Clean(t: ThreadId)
    | RefForClient(t: ThreadId, r: ClientRef)
    | UnrefReferenced(t: ThreadId)
    | ReleaseClient(t: ThreadId, r: ClientRef)
    | ThreadExit(t: ThreadId)
    | InstallPublish(sv: SvId)
    | InstallNumber
    | ScrapeSlot(t: ThreadId)
    | UnrefScraped(t: ThreadId)
    | UnrefOld

  ghost predicate Init(s: State) {
    && s.refs == map[] && s.versionNumbers == map[] && s.cleaned == {}
    && s.current.None? && s.currentNumber == 0
    && (forall t | t in s.threads :: s.threads[t] == Thread(Obsolete, None, Idle))
    && s.clients == map[] && s.install.NotInstalling?
  }

  predicate MutexFree(s: State) {
    s.install.NotInstalling?
  }

  predicate ScrapeDone(s: State) {
    s.install.Scraping? && s.install.remaining == {}
  }

  /** A step is made by a thread at its position in the code, or by the installer. What the code takes for granted
      there is not a condition here but in `Violates`. A reader starts only once there is a SuperVersion. */
  ghost predicate Enabled(s: State, e: Event) {
    if e.InstallPublish? then MutexFree(s) && e.sv !in s.refs
    else if e.InstallNumber? then s.install.Published?
    else if e.UnrefOld? then ScrapeDone(s) && forall t | t in s.threads :: s.threads[t].scraped.None?
    else
      && e.t in s.threads
      && var th := s.threads[e.t];
         match e
         case Swap(_) => th.pc.Idle? && s.current.Some?
         case CheckVersion(_) => th.pc.Swapped?
         case UnrefStale(_) => th.pc.Stale?
         case CleanAndRefCurrent(_) => th.pc.MustCleanThenRef? && MutexFree(s)
         case RefCurrent(_) => th.pc.NeedsCurrent? && MutexFree(s)
         case Return(_) => th.pc.Holds()
         case UnrefReturned(_) => th.pc.ReturnFailed?
         case Clean(_) => th.pc.MustClean? && MutexFree(s)
         case RefForClient(_, r) => th.pc.Holding? && r !in s.clients
         case UnrefReferenced(_) => th.pc.ReturnFailedReferenced?
         case ReleaseClient(_, r) =>
           th.pc.Idle? && r in s.clients && forall t | t in s.threads :: s.threads[t].pc.Client() != Some(r)
         case ThreadExit(_) => th.pc.Idle?
         case ScrapeSlot(t) => s.install.Scraping? && t in s.install.remaining
         case UnrefScraped(_) => ScrapeDone(s) && th.scraped.Some?
  }

  predicate CannotClean(s: State, x: SvId) {
    x !in s.refs || s.refs[x] != 0 || x in s.cleaned
  }

  /** The counter of `x` is not at least `n`, or there is no such SuperVersion. */
  predicate Below(s: State, x: SvId, n: nat) {
    x !in s.refs || s.refs[x] < n
  }

  predicate NoCurrent(s: State) {
    s.current.None? || Below(s, s.current.value, 1)
  }

  /** The source's asserts and the pointers it dereferences, at the step concerned. */
  ghost predicate Violates(s: State, e: Event)
    requires Enabled(s, e)
  {
    match e
    // The slot never shows kSVInUse to its own thread between two operations.
    case Swap(t) => s.threads[t].slot.InUse?
    // Unref on a positive count only.
    case UnrefStale(t) => Below(s, s.threads[t].pc.local, 1)
    case UnrefReturned(t) => Below(s, s.threads[t].pc.local, 1)
    case ReleaseClient(t, r) => Below(s, s.clients[r], 1)
    case RefForClient(t, _) => Below(s, s.threads[t].pc.local, 1)
    // Cleanup with no references left, and once only; there is a current SuperVersion to reference.
    case CleanAndRefCurrent(t) => CannotClean(s, s.threads[t].pc.dead) || NoCurrent(s)
    case RefCurrent(t) => NoCurrent(s)
    case Clean(t) => CannotClean(s, s.threads[t].pc.dead)
    // A failed compare-and-swap can only have seen kSVObsolete.
    case Return(t) => s.threads[t].slot.Cached?
    // These give up a reference that must not be the last one.
    case UnrefReferenced(t) => Below(s, s.threads[t].pc.local, 2)
    case ThreadExit(t) => s.threads[t].slot.Cached? && Below(s, s.threads[t].slot.sv, 2)
    case UnrefScraped(t) => Below(s, s.threads[t].scraped.value, 2)
    case InstallNumber => s.current.None?
    case UnrefOld =>
      s.install.previous.None? || Below(s, s.install.previous.value, 1) || s.install.previous.value in s.cleaned
    case _ => false
  }

  function Drop(s: State, x: SvId): State
    requires x in s.refs && s.refs[x] > 0
  {
    s.(refs := s.refs[x := s.refs[x] - 1])
  }

  function Take(s: State, x: SvId): State
    requires x in s.refs
  {
    s.(refs := s.refs[x := s.refs[x] + 1])
  }

  function With(s: State, t: ThreadId, th: Thread): State {
    s.(threads := s.threads[t := th])
  }

  /** The successor state. */
  ghost function Apply(s: State, e: Event): State
    requires Enabled(s, e) && !Violates(s, e)
  {
    match e
    case Swap(t) =>
      var th := s.threads[t];
      With(s, t, th.(slot := InUse, pc := if th.slot.Cached? then Swapped(th.slot.sv) else NeedsCurrent))
    case CheckVersion(t) =>
      var th := s.threads[t];
      var x := th.pc.local;
      With(s, t, th.(pc := if x in s.versionNumbers && s.versionNumbers[x] == s.currentNumber then Holding(x, true)
                           else Stale(x)))
    case UnrefStale(t) =>
      var th := s.threads[t];
      var x := th.pc.local;
      Drop(With(s, t, th.(pc := if s.refs[x] == 1 then MustCleanThenRef(x) else NeedsCurrent)), x)
    case CleanAndRefCurrent(t) =>
      var th := s.threads[t];
      Take(With(s, t, th.(pc := Holding(s.current.value, th.slot.InUse?))), s.current.value)
      .(cleaned := s.cleaned + {th.pc.dead})
    case RefCurrent(t) =>
      var th := s.threads[t];
      Take(With(s, t, th.(pc := Holding(s.current.value, th.slot.InUse?))), s.current.value)
    case Return(t) =>
      var th := s.threads[t];
      With(s, t,
        if th.slot.InUse? then th.(slot := Cached(th.pc.local), pc := Idle)
        else if th.pc.Holding? then th.(pc := ReturnFailed(th.pc.local, th.pc.attached))
        else th.(pc := ReturnFailedReferenced(th.pc.local, th.pc.attached, th.pc.client)))
    case UnrefReturned(t) =>
      var th := s.threads[t];
      var x := th.pc.local;
      Drop(With(s, t, th.(pc := if s.refs[x] == 1 then MustClean(x) else Idle)), x)
    case Clean(t) =>
      var th := s.threads[t];
      With(s, t, th.(pc := Idle)).(cleaned := s.cleaned + {th.pc.dead})
    case RefForClient(t, r) =>
      var th := s.threads[t];
      var x := th.pc.local;
      Take(With(s, t, th.(pc := HoldingReferenced(x, th.pc.attached, r))), x).(clients := s.clients[r := x])
    case UnrefReferenced(t) =>
      var th := s.threads[t];
      Drop(With(s, t, th.(pc := Idle)), th.pc.local)
    case ReleaseClient(t, r) =>
      var th := s.threads[t];
      var x := s.clients[r];
      Drop(With(s, t, th.(pc := if s.refs[x] == 1 then MustClean(x) else Idle)), x).(clients := s.clients - {r})
    case ThreadExit(t) =>
      var th := s.threads[t];
      var s' := With(s, t, th.(slot := Obsolete));
      if th.slot.Cached? then Drop(s', th.slot.sv) else s'
    case InstallPublish(sv) =>
      s.(refs := s.refs[sv := 1], current := Some(sv), install := Published(s.current))
    case InstallNumber =>
      var n := s.currentNumber + 1;
      s.(currentNumber := n,
         versionNumbers := s.versionNumbers[s.current.value := n],
         install := if s.install.previous.Some? then Scraping(s.install.previous, s.threads.Keys) else NotInstalling)
    case ScrapeSlot(t) =>
      var th := s.threads[t];
      With(s, t, th.(slot := Obsolete, scraped := if th.slot.Cached? then Some(th.slot.sv) else th.scraped))
      .(install := s.install.(remaining := s.install.remaining - {t}))
    case UnrefScraped(t) =>
      var th := s.threads[t];
      Drop(With(s, t, th.(scraped := None)), th.scraped.value)
    case UnrefOld =>
      var x := s.install.previous.value;
      var s' := Drop(s.(install := NotInstalling), x);
      if s.refs[x] == 1 then s'.(cleaned := s.cleaned + {x}) else s'
  }

  // ----- The invariant -----

  /** The SuperVersion being replaced keeps the current pointer's reference until the end of the install. */
  function OldRef(s: State): Option<SvId> {
    if s.install.NotInstalling? then None else s.install.previous
  }

  /** Threads whose slot, whose scraped pointer or whose local variable holds a counted reference to `x`, and
      threads about to clean `x` up. */
  function SlotHolders(ths: map<ThreadId, Thread>, x: SvId): set<ThreadId> {
    set t | t in ths && ths[t].slot == Cached(x)
  }

  function ScrapedHolders(ths: map<ThreadId, Thread>, x: SvId): set<ThreadId> {
    set t | t in ths && ths[t].scraped == Some(x)
  }

  function LocalHolders(ths: map<ThreadId, Thread>, x: SvId): set<ThreadId> {
    set t | t in ths && ths[t].pc.Local() == Some(x)
  }

  function Cleaners(ths: map<ThreadId, Thread>, x: SvId): set<ThreadId> {
    set t | t in ths && ths[t].pc.Dead() == Some(x)
  }

  function ThreadReferences(ths: map<ThreadId, Thread>, x: SvId): nat {
    |SlotHolders(ths, x)| + |ScrapedHolders(ths, x)| + |LocalHolders(ths, x)|
  }

  /** How many references to `x` one thread holds. */
  function Weight(th: Thread, x: SvId): nat {
    Bit(th.slot == Cached(x)) + Bit(th.scraped == Some(x)) + Bit(th.pc.Local() == Some(x))
  }

  /** References that no thread holds. */
  function Elsewhere(s: State, x: SvId): nat {
    Bit(s.current == Some(x)) + Bit(OldRef(s) == Some(x)) + CountOf(s.clients, x)
  }

  /** Every place that holds a counted reference to `x`. */
  function References(s: State, x: SvId): nat {
    Elsewhere(s, x) + ThreadReferences(s.threads, x)
  }

  function RefsOf(s: State, x: SvId): nat {
    if x in s.refs then s.refs[x] else 0
  }

  predicate Unused(s: State, x: SvId) {
    x in s.refs && s.refs[x] == 0
  }

  predicate CountedAt(s: State, x: SvId) {
    References(s, x) == RefsOf(s, x)
  }

  /** A SuperVersion without references has been cleaned up, or exactly one thread is about to do so. */
  predicate CleanedOnceAt(s: State, x: SvId) {
    |Cleaners(s.threads, x)| + Bit(x in s.cleaned) == Bit(Unused(s, x))
  }

  ghost predicate Counted(s: State) {
    forall x :: CountedAt(s, x) && CleanedOnceAt(s, x)
  }

  /** An install is under way and has not scraped the slot of `t` yet. */
  predicate AwaitsScrape(s: State, t: ThreadId) {
    s.install.Published? || (s.install.Scraping? && t in s.install.remaining)
  }

  /** `x` is the current SuperVersion, or is being replaced by an install that has yet to reach `t`. */
  predicate Fresh(s: State, t: ThreadId, x: SvId) {
    s.current == Some(x) || (AwaitsScrape(s, t) && OldRef(s) == Some(x))
  }

  /** What holds of each thread on its own. */
  predicate ThreadOk(s: State, t: ThreadId, th: Thread) {
    // Slot contents by position.
    && (th.pc.Idle? || th.pc.MustClean? ==> !th.slot.InUse?)
    && (th.pc.Failed() || (th.pc.Holds() && !th.pc.attached) ==> th.slot.Obsolete?)
    && (th.slot.Cached? ==> th.pc.Idle? || th.pc.MustClean?)
    // What is in the slot, or can still be put back into it, is not outdated.
    && (th.slot.Cached? ==> Fresh(s, t, th.slot.sv))
    && (th.slot.InUse? && (th.pc.Swapped? || th.pc.Holds()) ==> Fresh(s, t, th.pc.local))
    // What was taken while the slot was in use, and the slot has been scraped since, has been replaced.
    && (th.slot.Obsolete? && th.pc.Attached() ==> s.current != Some(th.pc.local))
    // Who has swapped a slot finds a SuperVersion.
    && (!th.pc.Idle? && !th.pc.MustClean? ==> s.current.Some?)
    // A scraped pointer is a pointer to the SuperVersion being replaced.
    && (th.scraped.Some? ==> s.install.Scraping? && t !in s.install.remaining && th.scraped == s.install.previous)
    // A reference made for a caller is still there.
    && (th.pc.Client().Some? ==> th.pc.Client().value in s.clients && s.clients[th.pc.Client().value] == th.pc.local)
  }

  ghost predicate ThreadsOk(s: State) {
    forall t | t in s.threads :: ThreadOk(s, t, s.threads[t])
  }

  /** While an install runs, nothing but the current pointer refers to the new SuperVersion. */
  ghost predicate InstallOk(s: State) {
    && (!s.install.NotInstalling? ==> s.current.Some? && References(s, s.current.value) == 1)
    && (s.install.Scraping? ==> s.install.previous.Some? && s.install.remaining <= s.threads.Keys)
    && (OldRef(s).Some? ==> OldRef(s) != s.current)
  }

  ghost predicate Inv(s: State) {
    Counted(s) && ThreadsOk(s) && InstallOk(s)
  }

  // ----- Counting lemmas -----

  /** Replacing one thread's record changes the counts by that thread's weight. */
  lemma ThreadUpdate(ths: map<ThreadId, Thread>, t: ThreadId, th: Thread, x: SvId)
    requires t in ths
    ensures ThreadReferences(ths[t := th], x) + Weight(ths[t], x) == ThreadReferences(ths, x) + Weight(th, x)
    ensures |Cleaners(ths[t := th], x)| + Bit(ths[t].pc.Dead() == Some(x))
            == |Cleaners(ths, x)| + Bit(th.pc.Dead() == Some(x))
  {
    var ths' := ths[t := th];
    MemberUpdate(SlotHolders(ths, x), SlotHolders(ths', x), t);
    MemberUpdate(ScrapedHolders(ths, x), ScrapedHolders(ths', x), t);
    MemberUpdate(LocalHolders(ths, x), LocalHolders(ths', x), t);
    MemberUpdate(Cleaners(ths, x), Cleaners(ths', x), t);
  }

  lemma MemberUpdate<T>(a: set<T>, b: set<T>, k: T)
    requires a - {k} == b - {k}
    ensures |b| + Bit(k in a) == |a| + Bit(k in b)
  {
    assert k in a ==> a == (a - {k}) + {k};
    assert k in b ==> b == (b - {k}) + {k};
    assert k !in a ==> a == a - {k};
    assert k !in b ==> b == b - {k};
  }

  /** A thread's weight is part of the count. */
  lemma WeightCounts(ths: map<ThreadId, Thread>, t: ThreadId, x: SvId)
    requires t in ths
    ensures Weight(ths[t], x) <= ThreadReferences(ths, x)
  {
    ThreadUpdate(ths, t, Thread(Obsolete, None, Idle), x);
  }

  // ----- The asserts hold -----

  lemma HeldIsReferenced(s: State, t: ThreadId, x: SvId)
    requires Counted(s) && t in s.threads && Weight(s.threads[t], x) > 0
    ensures x in s.refs && s.refs[x] >= Weight(s.threads[t], x) + Bit(s.current == Some(x)) + Bit(OldRef(s) == Some(x))
    ensures forall r | r in s.clients && s.clients[r] == x ::
              s.refs[x] > Weight(s.threads[t], x) + Bit(s.current == Some(x)) + Bit(OldRef(s) == Some(x))
  {
    assert CountedAt(s, x);
    WeightCounts(s.threads, t, x);
    forall r | r in s.clients && s.clients[r] == x
      ensures CountOf(s.clients, x) > 0
    {
      CountPositive(s.clients, r);
    }
  }

  lemma DeadIsUncleaned(s: State, t: ThreadId)
    requires Counted(s) && t in s.threads && s.threads[t].pc.Dead().Some?
    ensures !CannotClean(s, s.threads[t].pc.dead)
  {
    var x := s.threads[t].pc.dead;
    assert CleanedOnceAt(s, x);
    assert t in Cleaners(s.threads, x);
  }

  lemma CurrentIsReferenced(s: State)
    requires Counted(s) && s.current.Some?
    ensures !NoCurrent(s)
  {
    assert CountedAt(s, s.current.value);
  }

  /** In every state of the invariant every assert of the source holds. */
  lemma NoViolation(s: State, e: Event)
    requires Inv(s) && Enabled(s, e)
    ensures !Violates(s, e)
  {
    match e
    case UnrefStale(t) => HeldIsReferenced(s, t, s.threads[t].pc.local);
    case UnrefReturned(t) => HeldIsReferenced(s, t, s.threads[t].pc.local);
    case RefForClient(t, _) => HeldIsReferenced(s, t, s.threads[t].pc.local);
    case ReleaseClient(t, r) =>
      assert CountedAt(s, s.clients[r]);
      CountPositive(s.clients, r);
    case UnrefReferenced(t) => HeldIsReferenced(s, t, s.threads[t].pc.local);
    case ThreadExit(t) => if s.threads[t].slot.Cached? { HeldIsReferenced(s, t, s.threads[t].slot.sv); }
    case UnrefScraped(t) => HeldIsReferenced(s, t, s.threads[t].scraped.value);
    case RefCurrent(t) => CurrentIsReferenced(s);
    case CleanAndRefCurrent(t) =>
      DeadIsUncleaned(s, t);
      CurrentIsReferenced(s);
    case Clean(t) => DeadIsUncleaned(s, t);
    case UnrefOld =>
      assert CountedAt(s, s.install.previous.value) && CleanedOnceAt(s, s.install.previous.value);
    case _ =>
  }

  // ----- Each step keeps the invariant -----

  predicate IsInstallEvent(e: Event) {
    e.InstallPublish? || e.InstallNumber? || e.UnrefOld?
  }

  /** The steps at which a thread uses its slot. */
  predicate UsesSlot(e: Event) {
    e.Swap? || e.CheckVersion? || e.Return?
  }

  /** The steps that empty a slot or give up what was in it. */
  predicate EmptiesSlot(e: Event) {
    e.ThreadExit? || e.ScrapeSlot? || e.UnrefScraped?
  }

  predicate OnSlot(e: Event) {
    UsesSlot(e) || EmptiesSlot(e)
  }

  /** The record of the thread that makes a step; an installer has none. */
  function RecordOf(s: State, e: Event): Thread {
    if !IsInstallEvent(e) && e.t in s.threads then s.threads[e.t] else Thread(Obsolete, None, Idle)
  }

  /** What a step adds to the counter of `x`, and to the SuperVersions cleaned up, it also adds to the places that
      refer to it and to the threads about to clean it up: elsewhere, or in one thread's record. */
  predicate Balanced(s: State, s': State, th: Thread, th': Thread, x: SvId) {
    && RefsOf(s, x) + Elsewhere(s', x) + Weight(th', x) == RefsOf(s', x) + Elsewhere(s, x) + Weight(th, x)
    && Bit(Unused(s, x)) + Bit(x in s'.cleaned) + Bit(th'.pc.Dead() == Some(x))
       == Bit(Unused(s', x)) + Bit(x in s.cleaned) + Bit(th.pc.Dead() == Some(x))
  }

  predicate StepBalanced(s: State, s': State, e: Event, x: SvId) {
    && Balanced(s, s', RecordOf(s, e), RecordOf(s', e), x)
    && if IsInstallEvent(e) then s'.threads == s.threads
       else e.t in s.threads && e.t in s'.threads && s'.threads == s.threads[e.t := s'.threads[e.t]]
  }

  lemma BalancedUse(s: State, e: Event, x: SvId)
    requires Enabled(s, e) && !Violates(s, e) && UsesSlot(e)
    ensures StepBalanced(s, Apply(s, e), e, x)
  {
  }

  lemma BalancedScrape(s: State, e: Event, x: SvId)
    requires Enabled(s, e) && !Violates(s, e) && e.ScrapeSlot? && ThreadOk(s, e.t, s.threads[e.t])
    ensures StepBalanced(s, Apply(s, e), e, x)
  {
  }

  lemma BalancedEmptying(s: State, e: Event, x: SvId)
    requires Enabled(s, e) && !Violates(s, e) && EmptiesSlot(e) && !e.ScrapeSlot? && ThreadOk(s, e.t, s.threads[e.t])
    ensures StepBalanced(s, Apply(s, e), e, x)
  {
  }

  lemma BalancedReference(s: State, e: Event, x: SvId)
    requires Enabled(s, e) && !Violates(s, e)
    requires !IsInstallEvent(e) && !OnSlot(e) && !e.RefForClient? && !e.ReleaseClient?
    requires e.CleanAndRefCurrent? || e.Clean? ==> CleanedOnceAt(s, x)
    ensures StepBalanced(s, Apply(s, e), e, x)
  {
  }

  lemma BalancedClient(s: State, e: Event, x: SvId)
    requires Enabled(s, e) && !Violates(s, e) && (e.RefForClient? || e.ReleaseClient?)
    ensures StepBalanced(s, Apply(s, e), e, x)
  {
    if e.RefForClient? {
      CountAfterUpdate(s.clients, e.r, s.threads[e.t].pc.local, x);
    } else {
      CountAfterRemove(s.clients, e.r, x);
    }
  }

  lemma BalancedInstall(s: State, e: Event, x: SvId)
    requires Enabled(s, e) && !Violates(s, e) && IsInstallEvent(e)
    requires e.InstallPublish? ==> CleanedOnceAt(s, x)
    ensures StepBalanced(s, Apply(s, e), e, x)
  {
  }

  lemma CountsFollow(s: State, s': State, e: Event, x: SvId)
    requires CountedAt(s, x) && CleanedOnceAt(s, x) && StepBalanced(s, s', e, x)
    ensures CountedAt(s', x) && CleanedOnceAt(s', x)
  {
    if !IsInstallEvent(e) {
      ThreadUpdate(s.threads, e.t, s'.threads[e.t], x);
    }
  }

  lemma OwnThreadAfterUse(s: State, e: Event)
    requires Enabled(s, e) && !Violates(s, e) && InstallOk(s)
    requires UsesSlot(e) && ThreadOk(s, e.t, s.threads[e.t])
    ensures ThreadOk(Apply(s, e), e.t, Apply(s, e).threads[e.t])
  {
  }

  lemma OwnThreadAfterEmptying(s: State, e: Event)
    requires Enabled(s, e) && !Violates(s, e) && InstallOk(s)
    requires EmptiesSlot(e) && ThreadOk(s, e.t, s.threads[e.t])
    requires e.ScrapeSlot? ==> Weight(s.threads[e.t], s.current.value) == 0
    ensures ThreadOk(Apply(s, e), e.t, Apply(s, e).threads[e.t])
  {
  }

  lemma OwnThreadAfterOtherStep(s: State, e: Event)
    requires Enabled(s, e) && !Violates(s, e) && InstallOk(s)
    requires !IsInstallEvent(e) && !OnSlot(e) && ThreadOk(s, e.t, s.threads[e.t])
    ensures ThreadOk(Apply(s, e), e.t, Apply(s, e).threads[e.t])
  {
  }

  /** A step of an installer leaves the records of the threads in order. */
  lemma ThreadAfterInstallEvent(s: State, e: Event, u: ThreadId)
    requires Enabled(s, e) && !Violates(s, e) && InstallOk(s)
    requires u in s.threads && ThreadOk(s, u, s.threads[u])
    requires IsInstallEvent(e)
    requires e.InstallPublish? ==> Weight(s.threads[u], e.sv) == 0
    ensures ThreadOk(Apply(s, e), u, Apply(s, e).threads[u])
  {
  }

  /** A step of one thread leaves the records of the others in order. */
  lemma OtherThreadAfterStep(s: State, e: Event, u: ThreadId)
    requires Enabled(s, e) && !Violates(s, e) && InstallOk(s)
    requires u in s.threads && ThreadOk(s, u, s.threads[u])
    requires !IsInstallEvent(e) && u != e.t
    ensures ThreadOk(Apply(s, e), u, Apply(s, e).threads[u])
  {
    hide Enabled, Violates, Apply, InstallOk, ThreadOk;
    if UsesSlot(e) {
      OtherThreadAfterUse(s, e, u);
    } else if EmptiesSlot(e) {
      OtherThreadAfterEmptying(s, e, u);
    } else {
      OtherThreadAfterOtherStep(s, e, u);
    }
  }

  lemma OtherThreadAfterUse(s: State, e: Event, u: ThreadId)
    requires Enabled(s, e) && !Violates(s, e) && InstallOk(s)
    requires u in s.threads && ThreadOk(s, u, s.threads[u])
    requires UsesSlot(e) && u != e.t
    ensures ThreadOk(Apply(s, e), u, Apply(s, e).threads[u])
  {
  }

  lemma OtherThreadAfterEmptying(s: State, e: Event, u: ThreadId)
    requires Enabled(s, e) && !Violates(s, e) && InstallOk(s)
    requires u in s.threads && ThreadOk(s, u, s.threads[u])
    requires EmptiesSlot(e) && u != e.t
    ensures ThreadOk(Apply(s, e), u, Apply(s, e).threads[u])
  {
  }

  lemma OtherThreadAfterOtherStep(s: State, e: Event, u: ThreadId)
    requires Enabled(s, e) && !Violates(s, e) && InstallOk(s)
    requires u in s.threads && ThreadOk(s, u, s.threads[u])
    requires !IsInstallEvent(e) && !OnSlot(e) && u != e.t
    ensures ThreadOk(Apply(s, e), u, Apply(s, e).threads[u])
  {
  }

  lemma InstallAfterInstallEvent(s: State, e: Event)
    requires InstallOk(s) && Enabled(s, e) && !Violates(s, e) && IsInstallEvent(e)
    requires e.InstallPublish? ==> CountedAt(s, e.sv) && CountedAt(Apply(s, e), e.sv)
    requires s.current.Some? ==> CountedAt(s, s.current.value) && CountedAt(Apply(s, e), s.current.value)
    ensures InstallOk(Apply(s, e))
  {
  }

  lemma InstallAfterThreadEvent(s: State, e: Event)
    requires InstallOk(s) && Enabled(s, e) && !Violates(s, e) && !IsInstallEvent(e)
    requires s.current.Some? ==>
               && CountedAt(s, s.current.value) && CountedAt(Apply(s, e), s.current.value)
               && Weight(s.threads[e.t], s.current.value) <= ThreadReferences(s.threads, s.current.value)
               && (e.ReleaseClient? && s.clients[e.r] == s.current.value ==> CountOf(s.clients, s.current.value) > 0)
    ensures InstallOk(Apply(s, e))
  {
    hide ThreadReferences;
  }

  lemma InstallAfterStep(s: State, e: Event)
    requires Inv(s) && Enabled(s, e) && !Violates(s, e)
    requires Counted(Apply(s, e))
    ensures InstallOk(Apply(s, e))
  {
    hide Violates, Apply, CountedAt, CleanedOnceAt;
    var s' := Apply(s, e);
    if s.current.Some? {
      assert CountedAt(s, s.current.value) && CountedAt(s', s.current.value);
    }
    if IsInstallEvent(e) {
      if e.InstallPublish? {
        assert CountedAt(s, e.sv) && CountedAt(s', e.sv);
      }
      InstallAfterInstallEvent(s, e);
    } else {
      if s.current.Some? {
        WeightCounts(s.threads, e.t, s.current.value);
        if e.ReleaseClient? && s.clients[e.r] == s.current.value {
          CountPositive(s.clients, e.r);
        }
      }
      InstallAfterThreadEvent(s, e);
    }
  }

  lemma CountsAfterStep(s: State, e: Event)
    requires Inv(s) && Enabled(s, e) && !Violates(s, e)
    ensures Counted(Apply(s, e))
  {
    hide Violates, Apply, ThreadOk, StepBalanced, InstallOk, Balanced, CountedAt, CleanedOnceAt;
    forall x
      ensures CountedAt(Apply(s, e), x) && CleanedOnceAt(Apply(s, e), x)
    {
      assert CountedAt(s, x) && CleanedOnceAt(s, x);
      if IsInstallEvent(e) {
        BalancedInstall(s, e, x);
      } else if UsesSlot(e) {
        BalancedUse(s, e, x);
      } else if EmptiesSlot(e) {
        assert ThreadOk(s, e.t, s.threads[e.t]);
        if e.ScrapeSlot? {
          BalancedScrape(s, e, x);
        } else {
          BalancedEmptying(s, e, x);
        }
      } else if e.RefForClient? || e.ReleaseClient? {
        BalancedClient(s, e, x);
      } else {
        BalancedReference(s, e, x);
      }
      CountsFollow(s, Apply(s, e), e, x);
    }
  }

  lemma ThreadsAfterStep(s: State, e: Event)
    requires Inv(s) && Enabled(s, e) && !Violates(s, e)
    ensures ThreadsOk(Apply(s, e))
  {
    forall u | u in Apply(s, e).threads
      ensures ThreadOk(Apply(s, e), u, Apply(s, e).threads[u])
    {
      if e.InstallPublish? {
        assert CountedAt(s, e.sv);
        WeightCounts(s.threads, u, e.sv);
      }
      if e.ScrapeSlot? {
        WeightCounts(s.threads, u, s.current.value);
      }
      if IsInstallEvent(e) {
        ThreadAfterInstallEvent(s, e, u);
      } else if u == e.t {
        if UsesSlot(e) {
          OwnThreadAfterUse(s, e);
        } else if EmptiesSlot(e) {
          OwnThreadAfterEmptying(s, e);
        } else {
          OwnThreadAfterOtherStep(s, e);
        }
      } else {
        OtherThreadAfterStep(s, e, u);
      }
    }
  }

  /** Every atomic step of every thread keeps the invariant, and no assert of the source can fail at it. */
  lemma StepKeepsInv(s: State, e: Event)
    requires Inv(s) && Enabled(s, e)
    ensures !Violates(s, e) && Inv(Apply(s, e))
  {
    NoViolation(s, e);
    CountsAfterStep(s, e);
    ThreadsAfterStep(s, e);
    InstallAfterStep(s, e);
  }

  // ----- Whole runs -----

  /** A run of the protocol: each event is enabled where it happens. */
  ghost predicate Run(s: State, events: seq<Event>, s': State)
    decreases |events|
  {
    if events == [] then s == s'
    else Enabled(s, events[0]) && !Violates(s, events[0]) && Run(Apply(s, events[0]), events[1..], s')
  }

  lemma InitKeepsInv(s: State)
    requires Init(s)
    ensures Inv(s)
  {
    forall x
      ensures CountedAt(s, x) && CleanedOnceAt(s, x)
    {
      assert SlotHolders(s.threads, x) == {} && ScrapedHolders(s.threads, x) == {};
      assert LocalHolders(s.threads, x) == {} && Cleaners(s.threads, x) == {};
      assert Holders(s.clients, x) == {};
    }
  }

  lemma {:induction false} RunKeepsInv(s: State, events: seq<Event>, s': State)
    requires Inv(s) && Run(s, events, s')
    ensures Inv(s')
    decreases |events|
  {
    if events != [] {
      StepKeepsInv(s, events[0]);
      RunKeepsInv(Apply(s, events[0]), events[1..], s');
    }
  }

  /** Main result. After any run with any number of threads, installs and client references: the counter of each
      SuperVersion is the number of places that refer to it; one that has been cleaned up is referred to from
      nowhere; whatever step comes next, its assert holds. */
  lemma SafeAtEveryStep(s0: State, events: seq<Event>, s: State)
    requires Init(s0) && Run(s0, events, s)
    ensures forall x | x in s.refs :: s.refs[x] == References(s, x)
    ensures forall x | x in s.cleaned :: References(s, x) == 0
    ensures forall e | Enabled(s, e) :: !Violates(s, e)
  {
    InitKeepsInv(s0);
    RunKeepsInv(s0, events, s);
    forall x | x in s.refs
      ensures s.refs[x] == References(s, x)
    {
      assert CountedAt(s, x);
    }
    forall x | x in s.cleaned
      ensures References(s, x) == 0
    {
      assert CountedAt(s, x) && CleanedOnceAt(s, x);
    }
    forall e | Enabled(s, e)
      ensures !Violates(s, e)
    {
      NoViolation(s, e);
    }
  }

  /** No SuperVersion is cleaned up while a thread holds it, and the one in a slot is held by more than the slot. */
  lemma HeldIsAlive(s: State, t: ThreadId, x: SvId)
    requires Inv(s) && t in s.threads
    ensures s.threads[t].pc.Local() == Some(x) ==> x in s.refs && s.refs[x] > 0 && x !in s.cleaned
    ensures s.threads[t].slot == Cached(x) ==> x in s.refs && s.refs[x] > 1 && x !in s.cleaned
  {
    assert CountedAt(s, x) && CleanedOnceAt(s, x);
    WeightCounts(s.threads, t, x);
  }

  /** When all threads are idle and no install is running, exactly the unreferenced SuperVersions have been
      cleaned up: nothing leaks. */
  lemma NothingLeaks(s: State)
    requires Inv(s) && s.install.NotInstalling?
    requires forall t | t in s.threads :: s.threads[t].pc.Idle?
    ensures forall x | x in s.refs :: x in s.cleaned <==> References(s, x) == 0
  {
    forall x | x in s.refs
      ensures x in s.cleaned <==> References(s, x) == 0
    {
      assert CountedAt(s, x) && CleanedOnceAt(s, x);
      assert Cleaners(s.threads, x) == {};
    }
  }

  // ----- Progress -----

  predicate WaitsForMutex(pc: Pc) {
    pc.MustCleanThenRef? || pc.NeedsCurrent? || pc.MustClean?
  }

  /** An operation past its start can always go on, unless it waits for the mutex; an install, which holds the mutex,
      always can. So no run gets stuck. */
  lemma NeverStuck(s: State, t: ThreadId)
    requires Inv(s)
    ensures t in s.threads && !s.threads[t].pc.Idle? && (WaitsForMutex(s.threads[t].pc) ==> MutexFree(s)) ==>
              exists e :: Enabled(s, e) && !Violates(s, e) && !IsInstallEvent(e) && !e.ScrapeSlot? && !e.UnrefScraped?
                          && e.t == t
    ensures !MutexFree(s) ==>
              exists e :: Enabled(s, e) && !Violates(s, e) && (IsInstallEvent(e) || e.ScrapeSlot? || e.UnrefScraped?)
  {
    if t in s.threads && !s.threads[t].pc.Idle? && (WaitsForMutex(s.threads[t].pc) ==> MutexFree(s)) {
      var e := match s.threads[t].pc
        case Swapped(_) => CheckVersion(t)
        case Stale(_) => UnrefStale(t)
        case MustCleanThenRef(_) => CleanAndRefCurrent(t)
        case NeedsCurrent => RefCurrent(t)
        case ReturnFailed(_, _) => UnrefReturned(t)
        case ReturnFailedReferenced(_, _, _) => UnrefReferenced(t)
        case MustClean(_) => Clean(t)
        case _ => Return(t);
      assert Enabled(s, e);
      NoViolation(s, e);
    }
    if !MutexFree(s) {
      var e := InstallerStep(s);
      NoViolation(s, e);
    }
  }

  lemma InstallerStep(s: State) returns (e: Event)
    requires InstallOk(s) && !MutexFree(s)
    ensures Enabled(s, e) && (IsInstallEvent(e) || e.ScrapeSlot? || e.UnrefScraped?)
  {
    if s.install.Published? {
      e := InstallNumber;
    } else if s.install.remaining != {} {
      var u :| u in s.install.remaining;
      e := ScrapeSlot(u);
    } else if u :| u in s.threads && s.threads[u].scraped.Some? {
      e := UnrefScraped(u);
    } else {
      e := UnrefOld;
    }
  }

  // ----- What the version check tells -----

  /** The SuperVersion that was numbered last: the current one, unless it has been published and not numbered yet. */
  function Newest(s: State): Option<SvId> {
    if s.install.Published? then s.install.previous else s.current
  }

  /** Numbers are distinct, and the SuperVersion numbered last has the current number. */
  ghost predicate VersionsOk(s: State) {
    && (forall x | x in s.versionNumbers :: x in s.refs && 1 <= s.versionNumbers[x] <= s.currentNumber)
    && (forall x, y | x in s.versionNumbers && y in s.versionNumbers && s.versionNumbers[x] == s.versionNumbers[y] ::
          x == y)
    && (if Newest(s).Some?
        then Newest(s).value in s.versionNumbers && s.versionNumbers[Newest(s).value] == s.currentNumber
        else s.versionNumbers == map[])
    && (s.install.Published? ==> s.current.Some? && s.current.value in s.refs && s.current.value !in s.versionNumbers)
  }

  predicate Numbers(e: Event) {
    e.InstallPublish? || e.InstallNumber?
  }

  lemma VersionsAfterPublishing(s: State, e: Event)
    requires VersionsOk(s) && Enabled(s, e) && !Violates(s, e) && e.InstallPublish?
    ensures VersionsOk(Apply(s, e))
  {
  }

  lemma AfterNumbering(s: State)
    requires Enabled(s, InstallNumber) && !Violates(s, InstallNumber)
    ensures var s' := Apply(s, InstallNumber);
            && s.current.Some? && s'.current == s.current && s'.refs == s.refs && !s'.install.Published?
            && s'.currentNumber == s.currentNumber + 1
            && s'.versionNumbers == s.versionNumbers[s.current.value := s.currentNumber + 1]
  {
  }

  lemma VersionsAfterNumbering(s: State)
    requires VersionsOk(s) && Enabled(s, InstallNumber) && !Violates(s, InstallNumber)
    ensures VersionsOk(Apply(s, InstallNumber))
  {
    hide Violates, Apply;
    AfterNumbering(s);
  }

  lemma NumbersKept(s: State, e: Event)
    requires Enabled(s, e) && !Violates(s, e) && !Numbers(e)
    ensures var s' := Apply(s, e);
            && s'.versionNumbers == s.versionNumbers && s'.currentNumber == s.currentNumber && s'.current == s.current
            && s.refs.Keys <= s'.refs.Keys && Newest(s') == Newest(s)
            && (s'.install.Published? <==> s.install.Published?)
  {
  }

  lemma VersionsAfterStep(s: State, e: Event)
    requires VersionsOk(s) && Enabled(s, e) && !Violates(s, e)
    ensures VersionsOk(Apply(s, e))
  {
    if e.InstallPublish? {
      VersionsAfterPublishing(s, e);
    } else if e.InstallNumber? {
      VersionsAfterNumbering(s);
    } else {
      hide Enabled, Violates, Apply;
      NumbersKept(s, e);
    }
  }

  lemma {:induction false} VersionsAlongRun(s: State, events: seq<Event>, s': State)
    requires VersionsOk(s) && Run(s, events, s')
    ensures VersionsOk(s')
    decreases |events|
  {
    hide VersionsOk, Enabled, Violates, Apply;
    if events != [] {
      VersionsAfterStep(s, events[0]);
      VersionsAlongRun(Apply(s, events[0]), events[1..], s');
    }
  }

  /** After any run the version check lets a thread keep the SuperVersion from its slot if and only if that is the one
      numbered last: it is given up from the moment the install that replaces it has numbered its own. So, but for the
      time between publishing and numbering, it is kept exactly if it is current. */
  lemma CheckIsExact(s0: State, events: seq<Event>, s: State, t: ThreadId)
    requires Init(s0) && Run(s0, events, s) && Enabled(s, CheckVersion(t))
    ensures !Violates(s, CheckVersion(t))
    ensures var x, pc := s.threads[t].pc.local, Apply(s, CheckVersion(t)).threads[t].pc;
            && pc == (if Newest(s) == Some(x) then Holding(x, true) else Stale(x))
            && (!s.install.Published? ==> (pc == Holding(x, true) <==> s.current == Some(x)))
  {
    hide Run;
    VersionsAlongRun(s0, events, s);
  }

  // ----- What the operations get done -----

  ghost predicate Ok(s: State) {
    Inv(s) && VersionsOk(s)
  }

  ghost predicate OnlyBy(events: seq<Event>, t: ThreadId) {
    forall e | e in events :: !IsInstallEvent(e) && !e.ScrapeSlot? && !e.UnrefScraped? && e.t == t
  }

  /** Without an install in the way a thread that asks for the SuperVersion gets the current one: from its slot in two
      steps without the mutex if there is one in it, otherwise under the mutex. */
  lemma ReadGetsCurrent(s: State, t: ThreadId) returns (events: seq<Event>, s': State)
    requires Ok(s) && MutexFree(s) && s.current.Some? && t in s.threads && s.threads[t].pc.Idle?
    ensures Run(s, events, s') && OnlyBy(events, t) && Ok(s') && MutexFree(s') && s'.current == s.current
    ensures s'.threads == s.threads[t := Thread(InUse, s.threads[t].scraped, Holding(s.current.value, true))]
    ensures events == [Swap(t), if s.threads[t].slot.Cached? then CheckVersion(t) else RefCurrent(t)]
    ensures s'.clients == s.clients
  {
    assert ThreadOk(s, t, s.threads[t]);
    var a := Swap(t);
    StepKeepsInv(s, a);
    VersionsAfterStep(s, a);
    var s1 := Apply(s, a);
    var b := if s.threads[t].slot.Cached? then CheckVersion(t) else RefCurrent(t);
    StepKeepsInv(s1, b);
    VersionsAfterStep(s1, b);
    s' := Apply(s1, b);
    events := [a, b];
    RunOf2(s, a, b);
  }

  /** The thread puts back what it got, and the next read finds it. */
  lemma ReturnFillsSlot(s: State, t: ThreadId)
    requires Ok(s) && t in s.threads && s.threads[t].pc.Holds() && s.threads[t].slot.InUse?
    ensures Enabled(s, Return(t)) && !Violates(s, Return(t)) && Ok(Apply(s, Return(t)))
    ensures Apply(s, Return(t)).threads
            == s.threads[t := Thread(Cached(s.threads[t].pc.local), s.threads[t].scraped, Idle)]
    ensures Apply(s, Return(t)).current == s.current && Apply(s, Return(t)).clients == s.clients
  {
    StepKeepsInv(s, Return(t));
    VersionsAfterStep(s, Return(t));
  }

  /** A caller that wants to keep the SuperVersion gets a reference of its own, which stays its own until released. */
  lemma ClientGetsCurrent(s: State, t: ThreadId, r: ClientRef) returns (events: seq<Event>, s': State)
    requires Ok(s) && MutexFree(s) && s.current.Some? && t in s.threads && s.threads[t].pc.Idle? && r !in s.clients
    ensures Run(s, events, s') && OnlyBy(events, t) && Ok(s') && s'.clients == s.clients[r := s.current.value]
    ensures t in s'.threads && s'.threads[t].pc.Idle? && s'.threads[t].slot == Cached(s.current.value)
    ensures Enabled(s', ReleaseClient(t, r)) && !Violates(s', ReleaseClient(t, r))
    ensures Apply(s', ReleaseClient(t, r)).clients == s'.clients - {r}
  {
    hide Inv, VersionsOk, Enabled, Violates, Apply;
    var first, s1 := ReadGetsCurrent(s, t);
    ClientAfterRef(s1, t, r);
    var s2 := Apply(s1, RefForClient(t, r));
    StepKeepsInv(s1, RefForClient(t, r));
    VersionsAfterStep(s1, RefForClient(t, r));
    ReturnFillsSlot(s2, t);
    RunOf2(s1, RefForClient(t, r), Return(t));
    s' := Apply(s2, Return(t));
    events := first + [RefForClient(t, r), Return(t)];
    RunAppend(s, first, s1, [RefForClient(t, r), Return(t)], s');
    NoClientYet(s, r);
    ReleaseRemoves(s', t, r);
  }

  lemma ClientAfterRef(s: State, t: ThreadId, r: ClientRef)
    requires Inv(s) && t in s.threads && s.threads[t].pc.Holding? && r !in s.clients
    ensures Enabled(s, RefForClient(t, r)) && !Violates(s, RefForClient(t, r))
    ensures var s' := Apply(s, RefForClient(t, r));
            var pc := s.threads[t].pc;
            && s'.clients == s.clients[r := pc.local] && s'.current == s.current
            && s'.threads == s.threads[t := s.threads[t].(pc := HoldingReferenced(pc.local, pc.attached, r))]
  {
    NoViolation(s, RefForClient(t, r));
  }

  lemma NoClientYet(s: State, r: ClientRef)
    requires Inv(s) && r !in s.clients
    ensures forall u | u in s.threads :: s.threads[u].pc.Client() != Some(r)
  {
    forall u | u in s.threads
      ensures s.threads[u].pc.Client() != Some(r)
    {
      assert ThreadOk(s, u, s.threads[u]);
    }
  }

  lemma ReleaseRemoves(s: State, t: ThreadId, r: ClientRef)
    requires Inv(s) && t in s.threads && s.threads[t].pc.Idle? && r in s.clients
    requires forall u | u in s.threads :: s.threads[u].pc.Client() != Some(r)
    ensures Enabled(s, ReleaseClient(t, r)) && !Violates(s, ReleaseClient(t, r))
    ensures Apply(s, ReleaseClient(t, r)).clients == s.clients - {r}
  {
    NoViolation(s, ReleaseClient(t, r));
  }

  /** An install that has scraped the slots of all threads but the remaining ones. */
  ghost predicate ScrapedSoFar(s: State) {
    s.install.Scraping? && forall t | t in s.threads && t !in s.install.remaining :: s.threads[t].slot.Obsolete?
  }

  function Scraped(s: State): set<ThreadId> {
    set t | t in s.threads && s.threads[t].scraped.Some?
  }

  predicate IsInstallers(e: Event) {
    IsInstallEvent(e) || e.ScrapeSlot? || e.UnrefScraped?
  }

  ghost predicate OnlyByInstaller(events: seq<Event>) {
    forall e | e in events :: IsInstallers(e)
  }

  /** What the steps of an install leave as it is. */
  ghost predicate SameReaders(s: State, s': State) {
    && s'.current == s.current && s'.currentNumber == s.currentNumber && s'.threads.Keys == s.threads.Keys
    && s'.clients == s.clients && forall t | t in s.threads :: s'.threads[t].pc == s.threads[t].pc
  }

  /** What is left of an install that is scraping. */
  function Left(s: State): nat
    requires s.install.Scraping?
  {
    2 * |s.install.remaining| + |Scraped(s)|
  }

  lemma AfterScrapeSlot(s: State, u: ThreadId)
    requires Enabled(s, ScrapeSlot(u)) && ScrapedSoFar(s)
    ensures var s' := Apply(s, ScrapeSlot(u)); SameReaders(s, s') && ScrapedSoFar(s') && Left(s') < Left(s)
  {
    var s' := Apply(s, ScrapeSlot(u));
    assert s.install.remaining == s'.install.remaining + {u};
    assert Scraped(s') == Scraped(s) || Scraped(s') == Scraped(s) + {u};
  }

  lemma AfterUnrefScraped(s: State, u: ThreadId)
    requires Enabled(s, UnrefScraped(u)) && !Violates(s, UnrefScraped(u)) && ScrapedSoFar(s)
    ensures var s' := Apply(s, UnrefScraped(u)); SameReaders(s, s') && ScrapedSoFar(s') && Left(s') < Left(s)
  {
    var s' := Apply(s, UnrefScraped(u));
    assert Scraped(s) == Scraped(s') + {u};
  }

  lemma AfterUnrefOld(s: State)
    requires Enabled(s, UnrefOld) && !Violates(s, UnrefOld) && ScrapedSoFar(s)
    ensures var s' := Apply(s, UnrefOld);
            SameReaders(s, s') && MutexFree(s') && forall t | t in s'.threads :: s'.threads[t].slot.Obsolete?
  {
  }

  lemma ScrapingStep(s: State) returns (e: Event)
    requires Inv(s) && ScrapedSoFar(s)
    ensures Enabled(s, e) && !Violates(s, e) && IsInstallers(e) && SameReaders(s, Apply(s, e))
    ensures var s' := Apply(s, e);
            if e.UnrefOld? then MutexFree(s') && forall t | t in s'.threads :: s'.threads[t].slot.Obsolete?
            else ScrapedSoFar(s') && Left(s') < Left(s)
  {
    hide Violates, Apply, SameReaders, Scraped;
    e := InstallerStep(s);
    NoViolation(s, e);
    if e.ScrapeSlot? {
      AfterScrapeSlot(s, e.t);
    } else if e.UnrefScraped? {
      AfterUnrefScraped(s, e.t);
    } else {
      AfterUnrefOld(s);
    }
  }

  lemma {:induction false} ScrapingEnds(s: State) returns (events: seq<Event>, s': State)
    requires Ok(s) && ScrapedSoFar(s)
    ensures Run(s, events, s') && OnlyByInstaller(events) && Ok(s') && MutexFree(s') && SameReaders(s, s')
    ensures forall t | t in s'.threads :: s'.threads[t].slot.Obsolete?
    decreases Left(s)
  {
    hide Inv, VersionsOk, Enabled, Violates, Apply, Scraped;
    var e := ScrapingStep(s);
    StepKeepsInv(s, e);
    VersionsAfterStep(s, e);
    var s1 := Apply(s, e);
    if e.UnrefOld? {
      events, s' := [e], s1;
      assert [e][1..] == [];
    } else {
      var rest;
      rest, s' := ScrapingEnds(s1);
      events := [e] + rest;
      assert events[1..] == rest;
    }
  }

  /** An install, once begun, ends after finitely many steps of its own with its SuperVersion current and the slots of
      all threads scraped, so that no thread finds the one it replaced there. */
  lemma InstallReplaces(s: State, x: SvId) returns (events: seq<Event>, s': State)
    requires Ok(s) && Enabled(s, InstallPublish(x)) && s.current.Some?
    ensures Run(s, events, s') && OnlyByInstaller(events) && Ok(s') && MutexFree(s')
    ensures s'.current == Some(x) && s'.currentNumber == s.currentNumber + 1 && s'.clients == s.clients
    ensures s'.threads.Keys == s.threads.Keys
    ensures forall t | t in s'.threads :: s'.threads[t].slot.Obsolete? && s'.threads[t].pc == s.threads[t].pc
  {
    var a := InstallPublish(x);
    StepKeepsInv(s, a);
    VersionsAfterStep(s, a);
    var s1 := Apply(s, a);
    StepKeepsInv(s1, InstallNumber);
    VersionsAfterStep(s1, InstallNumber);
    var s2 := Apply(s1, InstallNumber);
    RunOf2(s, a, InstallNumber);
    var rest;
    rest, s' := ScrapingEnds(s2);
    events := [a, InstallNumber] + rest;
    RunAppend(s, [a, InstallNumber], s2, rest, s');
  }

  /** A thread that exits leaves nothing behind; when all have, and no client reference is left, every SuperVersion but
      the current one has been cleaned up. */
  lemma OnlyCurrentIsLeft(s: State)
    requires Inv(s) && MutexFree(s) && s.clients == map[]
    requires forall t | t in s.threads :: s.threads[t].pc.Idle? && !s.threads[t].slot.Cached?
    ensures forall x | x in s.refs :: x in s.cleaned <==> s.current != Some(x)
  {
    forall x | x in s.refs
      ensures x in s.cleaned <==> s.current != Some(x)
    {
      assert CountedAt(s, x) && CleanedOnceAt(s, x);
      forall t | t in s.threads
        ensures s.threads[t].scraped.None?
      {
        assert ThreadOk(s, t, s.threads[t]);
      }
      assert Cleaners(s.threads, x) == {} && SlotHolders(s.threads, x) == {};
      assert ScrapedHolders(s.threads, x) == {} && LocalHolders(s.threads, x) == {};
      assert Holders(s.clients, x) == {};
    }
  }

  lemma ExitEmptiesSlot(s: State, t: ThreadId)
    requires Inv(s) && t in s.threads && s.threads[t].pc.Idle?
    ensures Enabled(s, ThreadExit(t)) && !Violates(s, ThreadExit(t))
    ensures Apply(s, ThreadExit(t)).threads == s.threads[t := s.threads[t].(slot := Obsolete)]
  {
    NoViolation(s, ThreadExit(t));
  }

  // ----- What the compare-and-swap tells -----

  /** What was taken while the slot was in use and cannot be put back has been replaced. */
  lemma ScrapedMeansReplaced(s: State, t: ThreadId)
    requires Inv(s) && t in s.threads && s.threads[t].pc.Attached() && !s.threads[t].slot.InUse?
    ensures s.threads[t].pc.Local().Some? && s.current != s.threads[t].pc.Local()
  {
    assert ThreadOk(s, t, s.threads[t]);
  }

  /** The steps at which a thread gets a reference: out of its slot, or under the mutex. */
  predicate TakesReference(s: State, e: Event) {
    e.RefCurrent? || e.CleanAndRefCurrent? || (e.Swap? && e.t in s.threads && s.threads[e.t].slot.Cached?)
  }

  /** Thread `t` itself makes no steps but those that lead to putting its reference back. */
  predicate Returns(events: seq<Event>, t: ThreadId) {
    forall e | e in events :: LeadsToReturn(e, t)
  }

  predicate LeadsToReturn(e: Event, t: ThreadId) {
    !IsInstallEvent(e) && e.t == t ==>
      e.CheckVersion? || e.RefForClient? || e.Return? || e.ScrapeSlot? || e.UnrefScraped?
  }

  predicate FailedReturn(s: State, t: ThreadId) {
    t in s.threads && s.threads[t].pc.Failed()
  }

  /** Where a thread can be between taking a reference to `x` and the end of its attempt to put it back. */
  predicate Tracks(pc: Pc, x: SvId, attached: bool) {
    || pc.Idle? || pc.Stale? || (pc.Swapped? && attached && pc.local == x)
    || ((pc.Holds() || pc.Failed()) && pc.local == x && pc.attached == attached)
  }

  lemma TracksAfterStep(s: State, e: Event, t: ThreadId, x: SvId, attached: bool)
    requires Enabled(s, e) && !Violates(s, e) && LeadsToReturn(e, t)
    requires t in s.threads && Tracks(s.threads[t].pc, x, attached)
    ensures t in Apply(s, e).threads && Tracks(Apply(s, e).threads[t].pc, x, attached)
  {
  }

  lemma {:induction false} TracksAlongRun(
    s: State, events: seq<Event>, s': State, t: ThreadId, x: SvId, attached: bool)
    requires Inv(s) && Run(s, events, s') && Returns(events, t)
    requires t in s.threads && Tracks(s.threads[t].pc, x, attached)
    ensures Inv(s') && t in s'.threads && Tracks(s'.threads[t].pc, x, attached)
    decreases |events|
  {
    hide Inv, Enabled, Violates, Apply, Tracks, LeadsToReturn;
    if events != [] {
      assert events[0] in events;
      StepKeepsInv(s, events[0]);
      TracksAfterStep(s, events[0], t, x, attached);
      assert Returns(events[1..], t);
      TracksAlongRun(Apply(s, events[0]), events[1..], s', t, x, attached);
    }
  }

  /** The comment on the failed compare-and-swap says that the SuperVersion it holds is obsolete. For a given
      reference that is so, in whatever way the run goes on, if and only if the slot still showed kSVInUse when the
      reference was taken. */
  lemma FailedReturnIsOfReplaced(s: State, e: Event)
    requires Inv(s) && Enabled(s, e) && !Violates(s, e) && TakesReference(s, e)
    ensures (forall events, s' | Run(Apply(s, e), events, s') && Returns(events, e.t) && FailedReturn(s', e.t) ::
               s'.current != s'.threads[e.t].pc.Local())
            <==> Apply(s, e).threads[e.t].slot.InUse?
  {
    hide Inv, Returns;
    var s1 := Apply(s, e);
    StepKeepsInv(s, e);
    if s1.threads[e.t].slot.InUse? {
      forall events, s' | Run(s1, events, s') && Returns(events, e.t) && FailedReturn(s', e.t)
        ensures s'.current != s'.threads[e.t].pc.Local()
      {
        TracksAlongRun(s1, events, s', e.t, s1.threads[e.t].pc.local, true);
        FailedSlot(s', e.t);
        ScrapedMeansReplaced(s', e.t);
      }
    } else {
      DetachedReturnFails(s, e);
    }
  }

  lemma FailedSlot(s: State, t: ThreadId)
    requires Inv(s) && t in s.threads && s.threads[t].pc.Failed()
    ensures s.threads[t].slot.Obsolete?
  {
    assert ThreadOk(s, t, s.threads[t]);
  }

  /** A reference taken under the mutex after the slot had been scraped cannot be put back even at once, while its
      SuperVersion is still the current one. */
  lemma DetachedReturnFails(s: State, e: Event)
    requires Inv(s) && Enabled(s, e) && !Violates(s, e) && TakesReference(s, e)
    requires !Apply(s, e).threads[e.t].slot.InUse?
    ensures Enabled(Apply(s, e), Return(e.t)) && !Violates(Apply(s, e), Return(e.t))
    ensures var s' := Apply(Apply(s, e), Return(e.t));
            && Run(Apply(s, e), [Return(e.t)], s') && Returns([Return(e.t)], e.t) && FailedReturn(s', e.t)
            && s'.current == s'.threads[e.t].pc.Local()
  {
    var s1 := Apply(s, e);
    StepKeepsInv(s, e);
    NoViolation(s1, Return(e.t));
    assert ThreadOk(s1, e.t, s1.threads[e.t]);
    assert [Return(e.t)][1..] == [];
  }

  /** The comment on the successful compare-and-swap says that the SuperVersion is still current. What is put back is
      current or is about to be scraped: it is current if and only if no install has published its successor and has
      yet to reach this slot. */
  lemma ReturnedIsFresh(s: State, t: ThreadId)
    requires Inv(s) && t in s.threads && s.threads[t].slot.InUse? && s.threads[t].pc.Holds()
    ensures Fresh(s, t, s.threads[t].pc.local)
    ensures s.current == Some(s.threads[t].pc.local)
            <==> !(AwaitsScrape(s, t) && OldRef(s) == Some(s.threads[t].pc.local))
  {
    assert ThreadOk(s, t, s.threads[t]);
  }

  // ----- Two runs -----

  /** Thread 0 swapped its empty slot while the second install was under way. */
  ghost function SecondInstallPublished(): State {
    State(map[1 := 1, 2 := 1], map[1 := 1], {}, Some(2), 1,
          map[0 := Thread(InUse, None, NeedsCurrent)], map[], Published(Some(1)))
  }

  /** The install numbered the SuperVersion and scraped that slot. */
  ghost function SlotScraped(): State {
    State(map[1 := 1, 2 := 1], map[1 := 1, 2 := 2], {}, Some(2), 2,
          map[0 := Thread(Obsolete, None, NeedsCurrent)], map[], Scraping(Some(1), {}))
  }

  /** After it thread 0 referenced the SuperVersion it published. */
  ghost function ScrapedWhileWaiting(): State {
    State(map[1 := 0, 2 := 2], map[1 := 1, 2 := 2], {1}, Some(2), 2,
          map[0 := Thread(Obsolete, None, Holding(2, false))], map[], NotInstalling)
  }

  /** Thread 0 referenced the first SuperVersion. */
  ghost function FirstReferenced(): State {
    State(map[1 := 2], map[1 := 1], {}, Some(1), 1,
          map[0 := Thread(InUse, None, Holding(1, true))], map[], NotInstalling)
  }

  ghost predicate OneThread(s: State) {
    Init(s) && s.threads == map[0 := Thread(Obsolete, None, Idle)]
  }

  lemma FirstHalf(s0: State)
    requires OneThread(s0)
    ensures Run(s0, [InstallPublish(1), InstallNumber, InstallPublish(2), Swap(0)], SecondInstallPublished())
  {
    RunOf4(s0, InstallPublish(1), InstallNumber, InstallPublish(2), Swap(0));
  }

  lemma SecondHalf()
    ensures Run(SecondInstallPublished(), [InstallNumber, ScrapeSlot(0)] + [UnrefOld, RefCurrent(0)],
                ScrapedWhileWaiting())
  {
    Scrapes();
    ReferencesAfterScrape();
    RunAppend(SecondInstallPublished(), [InstallNumber, ScrapeSlot(0)], SlotScraped(), [UnrefOld, RefCurrent(0)],
              ScrapedWhileWaiting());
  }

  lemma Scrapes()
    ensures Run(SecondInstallPublished(), [InstallNumber, ScrapeSlot(0)], SlotScraped())
  {
    var numbered := Apply(SecondInstallPublished(), InstallNumber);
    assert numbered.install == Scraping(Some(1), {0});
    assert Apply(numbered, ScrapeSlot(0)).install.remaining == {};
    assert Apply(numbered, ScrapeSlot(0)) == SlotScraped();
    RunOf2(SecondInstallPublished(), InstallNumber, ScrapeSlot(0));
  }

  lemma ReferencesAfterScrape()
    ensures Run(SlotScraped(), [UnrefOld, RefCurrent(0)], ScrapedWhileWaiting())
  {
    RunOf2(SlotScraped(), UnrefOld, RefCurrent(0));
  }

  /** A failed compare-and-swap for the SuperVersion that is current. */
  lemma FailedReturnOfCurrent(s0: State) returns (events: seq<Event>, s: State)
    requires OneThread(s0)
    ensures Run(s0, events, s)
    ensures 0 in s.threads && s.threads[0].pc == ReturnFailed(2, false) && s.current == Some(2)
  {
    var e1 := [InstallPublish(1), InstallNumber, InstallPublish(2), Swap(0)];
    var e2 := [InstallNumber, ScrapeSlot(0)] + [UnrefOld, RefCurrent(0)];
    FirstHalf(s0);
    SecondHalf();
    var s8 := ScrapedWhileWaiting();
    s := Apply(s8, Return(0));
    events := e1 + (e2 + [Return(0)]);
    assert [Return(0)][1..] == [];
    assert Run(s8, [Return(0)], s);
    RunAppend(SecondInstallPublished(), e2, s8, [Return(0)], s);
    RunAppend(s0, e1, SecondInstallPublished(), e2 + [Return(0)], s);
  }

  lemma ReferencesFirst(s0: State)
    requires OneThread(s0)
    ensures Run(s0, [InstallPublish(1), InstallNumber, Swap(0), RefCurrent(0)], FirstReferenced())
  {
    RunOf4(s0, InstallPublish(1), InstallNumber, Swap(0), RefCurrent(0));
  }

  /** A successful compare-and-swap for a SuperVersion that is no longer current. */
  lemma ReturnOfReplaced(s0: State) returns (events: seq<Event>, s: State)
    requires OneThread(s0)
    ensures Run(s0, events, s)
    ensures 0 in s.threads && s.threads[0] == Thread(Cached(1), None, Idle) && s.current == Some(2)
  {
    var e1 := [InstallPublish(1), InstallNumber, Swap(0), RefCurrent(0)];
    ReferencesFirst(s0);
    RunOf2(FirstReferenced(), InstallPublish(2), Return(0));
    s := Apply(Apply(FirstReferenced(), InstallPublish(2)), Return(0));
    events := e1 + [InstallPublish(2), Return(0)];
    RunAppend(s0, e1, FirstReferenced(), [InstallPublish(2), Return(0)], s);
  }

  lemma RunOf2(s: State, a: Event, b: Event)
    requires Enabled(s, a) && !Violates(s, a)
    requires var s1 := Apply(s, a); Enabled(s1, b) && !Violates(s1, b)
    ensures Run(s, [a, b], Apply(Apply(s, a), b))
  {
    assert [b][1..] == [];
    assert Run(Apply(s, a), [b], Apply(Apply(s, a), b));
    assert [a, b][1..] == [b];
  }

  lemma RunOf4(s: State, a: Event, b: Event, c: Event, d: Event)
    requires Enabled(s, a) && !Violates(s, a)
    requires var s1 := Apply(s, a); Enabled(s1, b) && !Violates(s1, b)
    requires var s2 := Apply(Apply(s, a), b); Enabled(s2, c) && !Violates(s2, c)
    requires var s3 := Apply(Apply(Apply(s, a), b), c); Enabled(s3, d) && !Violates(s3, d)
    ensures Run(s, [a, b, c, d], Apply(Apply(Apply(Apply(s, a), b), c), d))
  {
    var s1 := Apply(s, a);
    var s2 := Apply(s1, b);
    var s3 := Apply(s2, c);
    var s4 := Apply(s3, d);
    assert [d][1..] == [];
    assert Run(s3, [d], s4);
    assert [c, d][1..] == [d];
    assert Run(s2, [c, d], s4);
    assert [b, c, d][1..] == [c, d];
    assert Run(s1, [b, c, d], s4);
    assert [a, b, c, d][1..] == [b, c, d];
  }

  lemma {:induction false} RunAppend(s: State, a: seq<Event>, s': State, b: seq<Event>, s'': State)
    requires Run(s, a, s') && Run(s', b, s'')
    ensures Run(s, a + b, s'')
    decreases |a|
  {
    if a == [] {
      assert a + b == b;
    } else {
      RunAppend(Apply(s, a[0]), a[1..], s', b, s'');
      assert (a + b)[1..] == a[1..] + b;
    }
  }
}
