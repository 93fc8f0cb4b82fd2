/** Ownership of EPC pages in the SGX driver: allocation, faults, swapping, the add-page worker and release, as a
    state machine. Its steps are the sections that one lock protects; what an operation keeps in local variables
    between two of them is part of the state. An ENCLS instruction is an arbitrary success or failure. */
module EpcPaging {
  import opened Wrappers
  import opened Counting

  type PageId = nat
  type EnclId = nat
  type Addr = nat
  type OpId = nat

  /** SGX_NR_SWAP_CLUSTER_MAX */
  const SWAP_CLUSTER_MAX: nat := 16

  datatype EnclPage = EnclPage(epc: Option<PageId>, reserved: bool)

  datatype Phase = Creating | Running | Releasing

  /** The one work item of an enclave that adds pages. */
  datatype Worker = WorkerIdle | NeedsPage(addr: Addr) | HasPage(addr: Addr, page: PageId)

  datatype Encl = Encl(
    phase: Phase,
    lock: Option<OpId>,
    secs: Option<PageId>,
    vaPages: seq<PageId>,
    pages: map<Addr, EnclPage>,
    loadList: seq<Addr>,
    requests: seq<Addr>,
    worker: Worker,
    secsChildCnt: nat,
    initialized: bool,
    secsEvicted: bool,
    dead: bool,
    unmeasured: nat)        // pages that EADD counted and a failed EEXTEND took back

  /** A running operation on an enclave and what is in its local variables. */
  datatype Op =
    // sgx_init_page
    | VaHas(page: PageId)
    // sgx_do_fault, holding the enclave's lock
    | FaultAlloc(addr: Addr, reserve: bool)
    | FaultNeedsSecs(addr: Addr, reserve: bool, page: PageId)
    | FaultHasSecs(addr: Addr, reserve: bool, page: PageId, secsPage: PageId)
    | FaultLoad(addr: Addr, reserve: bool, page: PageId)
    | GivingBack(unused: seq<PageId>)                // lock dropped
    // sgx_vma_access between its fault and the clearing of the reserved flag
    | Accessing(addr: Addr)
    // sgx_swap_pages
    | Isolating(cluster: seq<Addr>, budget: nat)     // lock held
    | Isolated(cluster: seq<Addr>)
    | Writing(cluster: seq<Addr>)                    // lock held
  {
    predicate Locks() {
      FaultAlloc? || FaultNeedsSecs? || FaultHasSecs? || FaultLoad? || Isolating? || Writing?
    }

    predicate Faulting() {
      FaultAlloc? || FaultNeedsSecs? || FaultHasSecs? || FaultLoad?
    }

    /** How often page `p` is in the local variables. */
    function Count(p: PageId): nat {
      if VaHas? || FaultNeedsSecs? || FaultLoad? then Bit(page == p)
      else if FaultHasSecs? then Bit(page == p) + Bit(secsPage == p)
      else if GivingBack? then multiset(unused)[p]
      else 0
    }

    function Cluster(): seq<Addr> {
      if Isolating? || Isolated? || Writing? then cluster else []
    }
  }

  datatype RunningOp = RunningOp(e: EnclId, op: Op)

  datatype State = State(
    total: nat,
    free: seq<PageId>,
    freePages: int,
    alloced: nat,
    freed: nat,
    encls: map<EnclId, Encl>,
    ops: map<OpId, RunningOp>)

  /** What a step does to the list of free pages. */
  datatype Pool = Keep | Take | Give(page: PageId)

  /** The outcome of a step: its enclave, its operation if that goes on, and the list of free pages. */
  datatype Effect = Effect(x: Encl, op: Option<Op>, pool: Pool)

  // ----- Steps of an enclave -----

  datatype EnclStep =
    | CreateEnd(ok: bool)
    | Request(addr: Addr)
    | WorkerTake
    | WorkerSkip
    | WorkerAlloc
    | WorkerRefuse
    | WorkerEadd(measured: bool)
    | Init
    | Kill
    | ReleaseStart
    | ReleaseChild(addr: Addr)
    | ReleaseVa
    | ReleaseSecs

  predicate Unlocked(x: Encl) {
    x.phase.Running? && x.lock.None?
  }

  predicate NothingResident(x: Encl) {
    forall a | a in x.pages :: x.pages[a].epc.None?
  }

  /** Steps that need that no operation refers to the enclave. */
  predicate NeedsNoOps(t: EnclStep) {
    t.CreateEnd? || t.ReleaseStart?
  }

  predicate EnclEnabled(x: Encl, t: EnclStep, noneFree: bool) {
    match t
    case CreateEnd(_) => x.phase.Creating?
    case Request(a) => Unlocked(x) && !x.initialized && !x.dead && a !in x.pages
    case WorkerTake => Unlocked(x) && x.worker.WorkerIdle? && x.requests != []
    case WorkerSkip => x.worker.NeedsPage?
    case WorkerAlloc => x.worker.NeedsPage? && !noneFree
    case WorkerRefuse => Unlocked(x) && x.worker.HasPage?
    case WorkerEadd(_) => Unlocked(x) && x.worker.HasPage? && !x.dead
    // flush_work: the requests made so far have been processed.
    case Init => Unlocked(x) && !x.initialized && x.requests == [] && x.worker.WorkerIdle?
    case Kill => Unlocked(x)
    // The last reference is gone.
    case ReleaseStart => Unlocked(x) && x.requests == [] && x.worker.WorkerIdle?
    case ReleaseChild(a) => x.phase.Releasing? && a in x.pages && x.pages[a].epc.Some?
    case ReleaseVa => x.phase.Releasing? && NothingResident(x) && x.vaPages != []
    case ReleaseSecs => x.phase.Releasing? && NothingResident(x) && x.vaPages == [] && x.secs.Some?
  }

  /** A child needs its SECS, and must not replace a page that is there. */
  predicate EnclViolates(x: Encl, t: EnclStep) {
    t.WorkerEadd? && x.worker.HasPage?
    && (x.secs.None? || x.worker.addr !in x.pages || x.pages[x.worker.addr].epc.Some?)
  }

  /** list_del */
  function Unlisted(q: seq<Addr>, a: Addr): seq<Addr> {
    if q == [] then [] else if q[0] == a then q[1..] else [q[0]] + Unlisted(q[1..], a)
  }

  function SetPage(x: Encl, a: Addr, page: EnclPage): Encl {
    x.(pages := x.pages[a := page])
  }

  function OnlyEncl(x: Encl): Effect {
    Effect(x, None, Keep)
  }

  /** `p` is the first free page, if there is one. */
  function EnclEffect(x: Encl, t: EnclStep, noneFree: bool, p: PageId): Effect
    requires EnclEnabled(x, t, noneFree) && !EnclViolates(x, t)
  {
    match t
    case CreateEnd(ok) => OnlyEncl(x.(phase := if ok then Running else Releasing))
    case Request(a) => OnlyEncl(SetPage(x, a, EnclPage(None, false)).(requests := x.requests + [a]))
    case WorkerTake => OnlyEncl(x.(requests := x.requests[1..], worker := NeedsPage(x.requests[0])))
    case WorkerSkip => OnlyEncl(x.(worker := WorkerIdle))
    case WorkerAlloc => Effect(x.(worker := HasPage(x.worker.addr, p)), None, Take)
    case WorkerRefuse => Effect(x.(worker := WorkerIdle), None, Give(x.worker.page))
    case WorkerEadd(measured) =>
      var a := x.worker.addr;
      var counted := x.(secsChildCnt := x.secsChildCnt + 1, worker := WorkerIdle);
      // A failed EEXTEND gives the page back but leaves the count.
      if !measured then Effect(counted.(unmeasured := x.unmeasured + 1), None, Give(x.worker.page))
      else OnlyEncl(SetPage(counted, a, x.pages[a].(epc := Some(x.worker.page))).(loadList := x.loadList + [a]))
    case Init => OnlyEncl(x.(initialized := true))
    case Kill => OnlyEncl(x.(dead := true))
    case ReleaseStart => OnlyEncl(x.(phase := Releasing))
    case ReleaseChild(a) =>
      Effect(SetPage(x, a, EnclPage(None, false)).(loadList := Unlisted(x.loadList, a)), None,
             Give(x.pages[a].epc.value))
    case ReleaseVa => Effect(x.(vaPages := x.vaPages[1..]), None, Give(x.vaPages[0]))
    case ReleaseSecs => Effect(x.(secs := None), None, Give(x.secs.value))
  }

  // ----- Steps that start an operation -----

  datatype StartStep = VaAlloc | FaultStart(addr: Addr, reserve: bool) | SwapStart

  predicate StartEnabled(x: Encl, t: StartStep, noneFree: bool) {
    match t
    case VaAlloc => !x.phase.Releasing? && !noneFree
    case FaultStart(a, reserve) =>
      Unlocked(x) && a in x.pages && !x.dead && x.initialized && !(reserve && x.pages[a].reserved)
    case SwapStart => Unlocked(x)
  }

  function StartEffect(x: Encl, t: StartStep, noneFree: bool, p: PageId, o: OpId): Effect
    requires StartEnabled(x, t, noneFree)
  {
    match t
    case VaAlloc => Effect(x, Some(VaHas(p)), Take)
    case FaultStart(a, reserve) =>
      if x.pages[a].epc.None? then Effect(x.(lock := Some(o)), Some(FaultAlloc(a, reserve)), Keep)
      else if reserve then Effect(SetPage(x, a, x.pages[a].(reserved := true)), Some(Accessing(a)), Keep)
      else OnlyEncl(x)
    case SwapStart => Effect(x.(lock := Some(o)), Some(Isolating([], SWAP_CLUSTER_MAX)), Keep)
  }

  // ----- Steps of a running operation -----

  datatype OpStep =
    | VaEnd(ok: bool)
    | FaultPage
    | FaultNoPage
    | FaultSecsPage
    | FaultNoSecsPage
    | FaultElduSecs(ok: bool)
    | FaultEldu(ok: bool, inserted: bool)
    | GiveOneBack
    | AccessEnd
    | SwapScan(young: bool)
    | SwapIsolated
    | SwapWrite(killed: bool)
    | SwapEvict(ok: bool)
    | SwapEnd(ok: bool)

  predicate OpEnabled(x: Encl, op: Op, t: OpStep, noneFree: bool) {
    match t
    case VaEnd(_) => op.VaHas?
    case FaultPage => op.FaultAlloc? && !noneFree
    case FaultNoPage => op.FaultAlloc? && noneFree
    case FaultSecsPage => op.FaultNeedsSecs? && !noneFree
    case FaultNoSecsPage => op.FaultNeedsSecs? && noneFree
    case FaultElduSecs(_) => op.FaultHasSecs?
    case FaultEldu(_, _) => op.FaultLoad?
    case GiveOneBack => op.GivingBack? && op.unused != []
    case AccessEnd => op.Accessing?
    case SwapScan(_) => op.Isolating? && op.budget > 0 && x.loadList != [] && !x.dead
    case SwapIsolated => op.Isolating?
    case SwapWrite(_) => op.Isolated? && x.lock.None?
    case SwapEvict(_) => op.Writing? && op.cluster != []
    case SwapEnd(_) => op.Writing? && op.cluster == []
  }

  predicate Resident(x: Encl, a: Addr) {
    a in x.pages && x.pages[a].epc.Some?
  }

  predicate OpViolates(x: Encl, op: Op, t: OpStep, noneFree: bool)
    requires OpEnabled(x, op, t, noneFree)
  {
    match t
    // A child needs its SECS, and must not replace a page that is there.
    case FaultEldu(_, _) => x.secs.None? || op.addr !in x.pages || x.pages[op.addr].epc.Some?
    // The SECS is loaded only where there is none.
    case FaultElduSecs(_) => x.secs.Some?
    // ETRACK needs the SECS; only a page that is there and counted is evicted.
    case SwapWrite(_) => x.secs.None?
    case SwapEvict(_) => !Resident(x, op.cluster[0]) || x.secs.None? || x.secsChildCnt == 0
    // The SECS is evicted only while no child is resident.
    case SwapEnd(_) => x.secsChildCnt == 0 && x.initialized && (x.secs.None? || !NothingResident(x))
    // A page in use by a debugger's access stays, and stays reserved.
    case AccessEnd => !Resident(x, op.addr) || !x.pages[op.addr].reserved
    case SwapScan(_) => !Resident(x, x.loadList[0])
    case _ => false
  }

  function OpEffect(x: Encl, op: Op, t: OpStep, noneFree: bool, p: PageId, o: OpId): Effect
    requires OpEnabled(x, op, t, noneFree) && !OpViolates(x, op, t, noneFree)
  {
    var unlocked := x.(lock := None);
    match t
    case VaEnd(ok) =>
      if ok then OnlyEncl(x.(vaPages := [op.page] + x.vaPages)) else Effect(x, Some(GivingBack([op.page])), Keep)
    case FaultPage =>
      Effect(x, Some(if x.secsEvicted then FaultNeedsSecs(op.addr, op.reserve, p)
                     else FaultLoad(op.addr, op.reserve, p)), Take)
    case FaultNoPage => OnlyEncl(unlocked)
    case FaultSecsPage => Effect(x, Some(FaultHasSecs(op.addr, op.reserve, op.page, p)), Take)
    case FaultNoSecsPage => Effect(unlocked, Some(GivingBack([op.page])), Keep)
    case FaultElduSecs(ok) =>
      if ok then Effect(x.(secs := Some(op.secsPage), secsEvicted := false),
                        Some(FaultLoad(op.addr, op.reserve, op.page)), Keep)
      else Effect(unlocked, Some(GivingBack([op.page, op.secsPage])), Keep)
    case FaultEldu(ok, inserted) =>
      if !ok then Effect(unlocked, Some(GivingBack([op.page])), Keep)
      else
        var loaded := SetPage(unlocked, op.addr, EnclPage(Some(op.page), op.reserve || x.pages[op.addr].reserved))
                      .(secsChildCnt := x.secsChildCnt + 1, loadList := x.loadList + [op.addr],
                        dead := x.dead || !inserted);
        Effect(loaded, if inserted && op.reserve then Some(Accessing(op.addr)) else None, Keep)
    case GiveOneBack =>
      Effect(x, if |op.unused| == 1 then None else Some(GivingBack(op.unused[1..])), Give(op.unused[0]))
    case AccessEnd => OnlyEncl(SetPage(x, op.addr, x.pages[op.addr].(reserved := false)))
    case SwapScan(young) =>
      var a := x.loadList[0];
      if !young && !x.pages[a].reserved
      then Effect(SetPage(x, a, x.pages[a].(reserved := true)).(loadList := x.loadList[1..]),
                  Some(Isolating(op.cluster + [a], op.budget - 1)), Keep)
      else Effect(x.(loadList := x.loadList[1..] + [a]), Some(op.(budget := op.budget - 1)), Keep)
    case SwapIsolated => Effect(unlocked, if op.cluster == [] then None else Some(Isolated(op.cluster)), Keep)
    case SwapWrite(killed) => Effect(x.(lock := Some(o), dead := x.dead || killed), Some(Writing(op.cluster)), Keep)
    case SwapEvict(ok) =>
      var a := op.cluster[0];
      Effect(SetPage(x, a, EnclPage(None, false)).(secsChildCnt := x.secsChildCnt - 1, dead := x.dead || !ok),
             Some(Writing(op.cluster[1..])), Give(x.pages[a].epc.value))
    case SwapEnd(ok) =>
      if x.secsChildCnt == 0 && x.initialized
      then Effect(unlocked.(secs := None, secsEvicted := true, dead := x.dead || !ok), None, Give(x.secs.value))
      else OnlyEncl(unlocked)
  }

  // ----- Steps of the driver -----

  datatype Event =
    | Create(e: EnclId)
    | OnEncl(e: EnclId, encl: EnclStep)
    | Start(o: OpId, e: EnclId, start: StartStep)
    | OnOp(o: OpId, step: OpStep)
    | Remove(e: EnclId)

  predicate Boot(s: State) {
    && s.freePages == s.total == |s.free| && s.alloced == 0 && s.freed == 0
    && s.encls == map[] && s.ops == map[]
    && s.free == seq(s.total, i => i)
  }

  ghost predicate NoOps(s: State, e: EnclId) {
    forall o | o in s.ops :: s.ops[o].e != e
  }

  ghost predicate Enabled(s: State, ev: Event) {
    match ev
    case Create(e) => e !in s.encls && NoOps(s, e) && s.free != []
    case OnEncl(e, t) => e in s.encls && EnclEnabled(s.encls[e], t, s.free == []) && (NeedsNoOps(t) ==> NoOps(s, e))
    case Start(o, e, t) => e in s.encls && o !in s.ops && StartEnabled(s.encls[e], t, s.free == [])
    case OnOp(o, t) =>
      && o in s.ops && s.ops[o].e in s.encls
      && OpEnabled(s.encls[s.ops[o].e], s.ops[o].op, t, s.free == [])
    case Remove(e) =>
      && e in s.encls
      && var x := s.encls[e];
         x.phase.Releasing? && NothingResident(x) && x.vaPages == [] && x.secs.None?
  }

  ghost predicate Violates(s: State, ev: Event)
    requires Enabled(s, ev)
  {
    match ev
    case OnEncl(e, t) => EnclViolates(s.encls[e], t)
    case OnOp(o, t) => OpViolates(s.encls[s.ops[o].e], s.ops[o].op, t, s.free == [])
    case _ => false
  }

  function FirstFree(s: State): PageId {
    if s.free == [] then 0 else s.free[0]
  }

  /** sgx_alloc_page_fast and sgx_free_page */
  function Pooled(s: State, pool: Pool): State
    requires pool.Take? ==> s.free != []
  {
    match pool
    case Keep => s
    case Take => s.(free := s.free[1..], alloced := s.alloced + 1, freePages := s.freePages - 1)
    case Give(p) => s.(free := [p] + s.free, freed := s.freed + 1, freePages := s.freePages + 1)
  }

  const NEW_ENCL := Encl(Creating, None, None, [], map[], [], [], WorkerIdle, 0, false, false, false, 0)

  /** The enclave and the operation of a step, and what the step makes of them. */
  ghost function EffectOf(s: State, ev: Event): Effect
    requires Enabled(s, ev) && !Violates(s, ev) && !ev.Remove?
  {
    match ev
    case Create(e) => Effect(NEW_ENCL.(secs := Some(s.free[0])), None, Take)
    case OnEncl(e, t) => EnclEffect(s.encls[e], t, s.free == [], FirstFree(s))
    case Start(o, e, t) => StartEffect(s.encls[e], t, s.free == [], FirstFree(s), o)
    case OnOp(o, t) => OpEffect(s.encls[s.ops[o].e], s.ops[o].op, t, s.free == [], FirstFree(s), o)
  }

  ghost function EnclOf(s: State, ev: Event): EnclId
    requires Enabled(s, ev)
  {
    if ev.OnOp? then s.ops[ev.o].e else ev.e
  }

  ghost function Apply(s: State, ev: Event): State
    requires Enabled(s, ev) && !Violates(s, ev)
  {
    if ev.Remove? then s.(encls := s.encls - {ev.e})
    else
      var f, id := EffectOf(s, ev), EnclOf(s, ev);
      var s' := Pooled(s.(encls := s.encls[id := f.x]), f.pool);
      if ev.Create? || ev.OnEncl? then s'
      else if f.op.Some? then s'.(ops := s.ops[ev.o := RunningOp(id, f.op.value)])
      else s'.(ops := s.ops - {ev.o})
  }

  // ----- Where a page is -----

  /** A place inside an enclave that can hold pages. */
  datatype Slot = Secs | Va | Child(addr: Addr) | Work

  datatype Place = Free | Inside(e: EnclId, slot: Slot) | Held(o: OpId)

  function SlotCount(x: Encl, q: Slot, p: PageId): nat {
    match q
    case Secs => Bit(x.secs == Some(p))
    case Va => multiset(x.vaPages)[p]
    case Child(a) => Bit(a in x.pages && x.pages[a].epc == Some(p))
    case Work => Bit(x.worker.HasPage? && x.worker.page == p)
  }

  function HeldCount(op: Option<Op>, p: PageId): nat {
    if op.Some? then op.value.Count(p) else 0
  }

  function OpOf(s: State, o: OpId): Option<Op> {
    if o in s.ops then Some(s.ops[o].op) else None
  }

  /** How often page `p` is at a place. */
  function Multiplicity(s: State, q: Place, p: PageId): nat {
    match q
    case Free => multiset(s.free)[p]
    case Inside(e, slot) => if e in s.encls then SlotCount(s.encls[e], slot, p) else 0
    case Held(o) => HeldCount(OpOf(s, o), p)
  }

  /** Page `p` is once at `here` and nowhere else. */
  ghost predicate LivesAt(s: State, p: PageId, here: Place) {
    forall q :: Multiplicity(s, q, p) == Bit(q == here)
  }

  ghost predicate HasPlace(s: State, p: PageId) {
    exists here :: LivesAt(s, p, here)
  }

  /** Each page of the EPC is in exactly one place, and nothing else is taken for one. */
  ghost predicate Conserved(s: State) {
    && (forall p | 0 <= p < s.total :: HasPlace(s, p))
    && (forall p, q {:trigger Multiplicity(s, q, p)} | p >= s.total :: Multiplicity(s, q, p) == 0)
  }

  predicate CountersAgree(s: State) {
    s.freePages == |s.free| && s.alloced - s.freed == s.total - |s.free|
  }

  // ----- How a step moves a page -----

  datatype Spot = InPool | In(slot: Slot) | InOp

  /** The one page that a step moves, if any, seen from its enclave and its operation. */
  datatype Move = Stay | Move(page: PageId, from: Spot, to: Spot)

  function From(m: Move, spot: Spot, p: PageId): nat {
    Bit(m.Move? && m.page == p && m.from == spot)
  }

  function To(m: Move, spot: Spot, p: PageId): nat {
    Bit(m.Move? && m.page == p && m.to == spot)
  }

  predicate PoolMoves(m: Move, pool: Pool, first: PageId) {
    && (pool.Take? <==> m.Move? && m.from == InPool) && (pool.Take? ==> m.page == first)
    && (pool.Give? <==> m.Move? && m.to == InPool) && (pool.Give? ==> m.page == pool.page)
    && (m.Move? ==> m.from != m.to)
  }

  function EnclMove(x: Encl, t: EnclStep, noneFree: bool, p: PageId): Move
    requires EnclEnabled(x, t, noneFree) && !EnclViolates(x, t)
  {
    match t
    case WorkerAlloc => Move(p, InPool, In(Work))
    case WorkerRefuse => Move(x.worker.page, In(Work), InPool)
    case WorkerEadd(measured) => Move(x.worker.page, In(Work), if measured then In(Child(x.worker.addr)) else InPool)
    case ReleaseChild(a) => Move(x.pages[a].epc.value, In(Child(a)), InPool)
    case ReleaseVa => Move(x.vaPages[0], In(Va), InPool)
    case ReleaseSecs => Move(x.secs.value, In(Secs), InPool)
    case _ => Stay
  }

  function OpMove(x: Encl, op: Op, t: OpStep, noneFree: bool, p: PageId): Move
    requires OpEnabled(x, op, t, noneFree) && !OpViolates(x, op, t, noneFree)
  {
    match t
    case VaEnd(ok) => if ok then Move(op.page, InOp, In(Va)) else Stay
    case FaultPage => Move(p, InPool, InOp)
    case FaultSecsPage => Move(p, InPool, InOp)
    case FaultElduSecs(ok) => if ok then Move(op.secsPage, InOp, In(Secs)) else Stay
    case FaultEldu(ok, _) => if ok then Move(op.page, InOp, In(Child(op.addr))) else Stay
    case GiveOneBack => Move(op.unused[0], InOp, InPool)
    case SwapEvict(_) => Move(x.pages[op.cluster[0]].epc.value, In(Child(op.cluster[0])), InPool)
    case SwapEnd(_) => if x.secsChildCnt == 0 && x.initialized then Move(x.secs.value, In(Secs), InPool) else Stay
    case _ => Stay
  }

  predicate IsRelease(t: EnclStep) {
    t.ReleaseChild? || t.ReleaseVa? || t.ReleaseSecs?
  }

  lemma ReleaseMoves(x: Encl, t: EnclStep, noneFree: bool, first: PageId, q: Slot, p: PageId)
    requires EnclEnabled(x, t, noneFree) && !EnclViolates(x, t)
    requires IsRelease(t)
    ensures var f, m := EnclEffect(x, t, noneFree, first), EnclMove(x, t, noneFree, first);
            && SlotCount(f.x, q, p) + From(m, In(q), p) == SlotCount(x, q, p) + To(m, In(q), p)
            && PoolMoves(m, f.pool, first) && From(m, InOp, p) == 0 == To(m, InOp, p)
  {
    if t.ReleaseVa? {
      FirstCounts(x.vaPages, p);
    }
  }

  lemma EnclStepMoves(x: Encl, t: EnclStep, noneFree: bool, first: PageId, q: Slot, p: PageId)
    requires EnclEnabled(x, t, noneFree) && !EnclViolates(x, t)
    requires !IsRelease(t)
    ensures var f, m := EnclEffect(x, t, noneFree, first), EnclMove(x, t, noneFree, first);
            && SlotCount(f.x, q, p) + From(m, In(q), p) == SlotCount(x, q, p) + To(m, In(q), p)
            && PoolMoves(m, f.pool, first) && From(m, InOp, p) == 0 == To(m, InOp, p)
  {
  }

  predicate IsSwapStep(t: OpStep) {
    t.SwapScan? || t.SwapIsolated? || t.SwapWrite? || t.SwapEvict? || t.SwapEnd?
  }

  lemma FaultStepMovesSlots(x: Encl, op: Op, t: OpStep, noneFree: bool, first: PageId, o: OpId, q: Slot, p: PageId)
    requires OpEnabled(x, op, t, noneFree) && !OpViolates(x, op, t, noneFree) && !IsSwapStep(t)
    requires !t.VaEnd? && !t.FaultEldu?
    ensures var f, m := OpEffect(x, op, t, noneFree, first, o), OpMove(x, op, t, noneFree, first);
            SlotCount(f.x, q, p) + From(m, In(q), p) == SlotCount(x, q, p) + To(m, In(q), p)
  {
  }

  lemma ArrivalMovesSlots(x: Encl, op: Op, t: OpStep, noneFree: bool, first: PageId, o: OpId, q: Slot, p: PageId)
    requires OpEnabled(x, op, t, noneFree) && !OpViolates(x, op, t, noneFree) && t.FaultEldu?
    ensures var f, m := OpEffect(x, op, t, noneFree, first, o), OpMove(x, op, t, noneFree, first);
            SlotCount(f.x, q, p) + From(m, In(q), p) == SlotCount(x, q, p) + To(m, In(q), p)
  {
  }

  lemma VaMovesSlots(x: Encl, op: Op, t: OpStep, noneFree: bool, first: PageId, o: OpId, q: Slot, p: PageId)
    requires OpEnabled(x, op, t, noneFree) && !OpViolates(x, op, t, noneFree) && t.VaEnd?
    ensures var f, m := OpEffect(x, op, t, noneFree, first, o), OpMove(x, op, t, noneFree, first);
            SlotCount(f.x, q, p) + From(m, In(q), p) == SlotCount(x, q, p) + To(m, In(q), p)
  {
  }

  lemma EvictionMovesSlots(x: Encl, op: Op, t: OpStep, noneFree: bool, first: PageId, o: OpId, q: Slot, p: PageId)
    requires OpEnabled(x, op, t, noneFree) && !OpViolates(x, op, t, noneFree) && (t.SwapEvict? || t.SwapEnd?)
    ensures var f, m := OpEffect(x, op, t, noneFree, first, o), OpMove(x, op, t, noneFree, first);
            SlotCount(f.x, q, p) + From(m, In(q), p) == SlotCount(x, q, p) + To(m, In(q), p)
  {
  }

  lemma SwapStepMovesSlots(x: Encl, op: Op, t: OpStep, noneFree: bool, first: PageId, o: OpId, q: Slot, p: PageId)
    requires OpEnabled(x, op, t, noneFree) && !OpViolates(x, op, t, noneFree)
    requires t.SwapScan? || t.SwapIsolated? || t.SwapWrite?
    ensures var f, m := OpEffect(x, op, t, noneFree, first, o), OpMove(x, op, t, noneFree, first);
            SlotCount(f.x, q, p) + From(m, In(q), p) == SlotCount(x, q, p) + To(m, In(q), p)
  {
  }

  lemma FaultStepMovesHeld(x: Encl, op: Op, t: OpStep, noneFree: bool, first: PageId, o: OpId, p: PageId)
    requires OpEnabled(x, op, t, noneFree) && !OpViolates(x, op, t, noneFree) && !IsSwapStep(t) && !t.GiveOneBack?
    ensures var f, m := OpEffect(x, op, t, noneFree, first, o), OpMove(x, op, t, noneFree, first);
            && HeldCount(f.op, p) + From(m, InOp, p) == HeldCount(Some(op), p) + To(m, InOp, p)
            && PoolMoves(m, f.pool, first)
  {
  }

  lemma GiveOneBackMovesHeld(x: Encl, op: Op, t: OpStep, noneFree: bool, first: PageId, o: OpId, p: PageId)
    requires OpEnabled(x, op, t, noneFree) && !OpViolates(x, op, t, noneFree) && t.GiveOneBack?
    ensures var f, m := OpEffect(x, op, t, noneFree, first, o), OpMove(x, op, t, noneFree, first);
            && HeldCount(f.op, p) + From(m, InOp, p) == HeldCount(Some(op), p) + To(m, InOp, p)
            && PoolMoves(m, f.pool, first)
  {
    FirstCounts(op.unused, p);
    if |op.unused| == 1 {
      assert op.unused[1..] == [];
    }
  }

  lemma SwapStepMovesHeld(x: Encl, op: Op, t: OpStep, noneFree: bool, first: PageId, o: OpId, p: PageId)
    requires OpEnabled(x, op, t, noneFree) && !OpViolates(x, op, t, noneFree) && IsSwapStep(t)
    ensures var f, m := OpEffect(x, op, t, noneFree, first, o), OpMove(x, op, t, noneFree, first);
            && HeldCount(f.op, p) + From(m, InOp, p) == HeldCount(Some(op), p) + To(m, InOp, p)
            && PoolMoves(m, f.pool, first)
  {
  }

  lemma StartStepMoves(x: Encl, t: StartStep, noneFree: bool, first: PageId, o: OpId, q: Slot, p: PageId)
    requires StartEnabled(x, t, noneFree)
    ensures var f, m := StartEffect(x, t, noneFree, first, o), if t.VaAlloc? then Move(first, InPool, InOp) else Stay;
            && SlotCount(f.x, q, p) == SlotCount(x, q, p) && HeldCount(f.op, p) == To(m, InOp, p)
                && PoolMoves(m, f.pool, first)
  {
  }

  // ----- Conservation -----

  /** The move of a step. */
  ghost function MoveOf(s: State, ev: Event): Move
    requires Enabled(s, ev) && !Violates(s, ev)
  {
    match ev
    case Create(_) => Move(s.free[0], InPool, In(Secs))
    case OnEncl(e, t) => EnclMove(s.encls[e], t, s.free == [], FirstFree(s))
    case Start(_, _, t) => if t.VaAlloc? then Move(FirstFree(s), InPool, InOp) else Stay
    case OnOp(o, t) => OpMove(s.encls[s.ops[o].e], s.ops[o].op, t, s.free == [], FirstFree(s))
    case Remove(_) => Stay
  }

  /** A place as the enclave and the operation of the step see it. */
  ghost function SpotOf(s: State, ev: Event, q: Place): Option<Spot>
    requires Enabled(s, ev)
  {
    match q
    case Free => Some(InPool)
    case Inside(e, slot) => if e == EnclOf(s, ev) then Some(In(slot)) else None
    case Held(o) => if (ev.Start? || ev.OnOp?) && o == ev.o then Some(InOp) else None
  }

  lemma FreeMoves(s: State, pool: Pool, m: Move, p: PageId)
    requires PoolMoves(m, pool, FirstFree(s)) && (pool.Take? ==> s.free != [])
    ensures multiset(Pooled(s, pool).free)[p] + From(m, InPool, p) == multiset(s.free)[p] + To(m, InPool, p)
  {
    if s.free != [] {
      FirstCounts(s.free, p);
    }
  }

  lemma FreeBalanced(s: State, ev: Event, p: PageId)
    requires Enabled(s, ev) && !Violates(s, ev)
    requires ev.Remove? || PoolMoves(MoveOf(s, ev), EffectOf(s, ev).pool, FirstFree(s))
    ensures var m := MoveOf(s, ev);
            multiset(Apply(s, ev).free)[p] + From(m, InPool, p) == multiset(s.free)[p] + To(m, InPool, p)
  {
    if !ev.Remove? {
      FreeMoves(s, EffectOf(s, ev).pool, MoveOf(s, ev), p);
    }
  }

  /** The enclave and the operation of a step account for its move. */
  ghost predicate LocallyBalanced(s: State, ev: Event, slot: Slot, p: PageId)
    requires Enabled(s, ev) && !Violates(s, ev) && !ev.Remove?
  {
    var f, m := EffectOf(s, ev), MoveOf(s, ev);
    && (ev.Create? ==> SlotCount(f.x, slot, p) == To(m, In(slot), p))
    && (!ev.Create? ==>
          SlotCount(f.x, slot, p) + From(m, In(slot), p)
          == SlotCount(s.encls[EnclOf(s, ev)], slot, p) + To(m, In(slot), p))
    && (ev.Start? || ev.OnOp? ==> HeldCount(f.op, p) + From(m, InOp, p) == HeldCount(OpOf(s, ev.o), p) + To(m, InOp, p))
    && (!(ev.Start? || ev.OnOp?) ==> From(m, InOp, p) == 0 == To(m, InOp, p))
    && (ev.Create? ==> From(m, In(slot), p) == 0)
    && PoolMoves(m, f.pool, FirstFree(s))
  }

  lemma CreateLocally(s: State, ev: Event, slot: Slot, p: PageId)
    requires Enabled(s, ev) && !Violates(s, ev) && ev.Create?
    ensures LocallyBalanced(s, ev, slot, p)
  {
  }

  lemma Locally(s: State, ev: Event, slot: Slot, p: PageId)
    requires Enabled(s, ev) && !Violates(s, ev) && !ev.Remove?
    ensures LocallyBalanced(s, ev, slot, p)
  {
    hide EnclEnabled, OpEnabled, StartEnabled, EnclEffect, OpEffect, StartEffect, OpViolates, EnclMove, OpMove,
         Op.Count, SlotCount, PoolMoves;
    match ev
    case Create(e) => CreateLocally(s, ev, slot, p);
    case OnEncl(e, t) =>
      if IsRelease(t) {
        ReleaseMoves(s.encls[e], t, s.free == [], FirstFree(s), slot, p);
      } else {
        EnclStepMoves(s.encls[e], t, s.free == [], FirstFree(s), slot, p);
      }
    case Start(o, e, t) => StartStepMoves(s.encls[e], t, s.free == [], FirstFree(s), o, slot, p);
    case OnOp(o, t) => OpStepMoves(s.encls[s.ops[o].e], s.ops[o].op, t, s.free == [], FirstFree(s), o, slot, p);
  }

  lemma OpStepMoves(x: Encl, op: Op, t: OpStep, noneFree: bool, first: PageId, o: OpId, q: Slot, p: PageId)
    requires OpEnabled(x, op, t, noneFree) && !OpViolates(x, op, t, noneFree)
    ensures var f, m := OpEffect(x, op, t, noneFree, first, o), OpMove(x, op, t, noneFree, first);
            && SlotCount(f.x, q, p) + From(m, In(q), p) == SlotCount(x, q, p) + To(m, In(q), p)
            && HeldCount(f.op, p) + From(m, InOp, p) == HeldCount(Some(op), p) + To(m, InOp, p)
            && PoolMoves(m, f.pool, first)
  {
    hide OpEnabled, OpViolates, OpEffect, OpMove, SlotCount, HeldCount, PoolMoves, From, To;
    if IsSwapStep(t) {
      if t.SwapEvict? || t.SwapEnd? {
        EvictionMovesSlots(x, op, t, noneFree, first, o, q, p);
      } else {
        SwapStepMovesSlots(x, op, t, noneFree, first, o, q, p);
      }
      SwapStepMovesHeld(x, op, t, noneFree, first, o, p);
    } else {
      if t.VaEnd? {
        VaMovesSlots(x, op, t, noneFree, first, o, q, p);
      } else if t.FaultEldu? {
        ArrivalMovesSlots(x, op, t, noneFree, first, o, q, p);
      } else {
        FaultStepMovesSlots(x, op, t, noneFree, first, o, q, p);
      }
      if t.GiveOneBack? {
        GiveOneBackMovesHeld(x, op, t, noneFree, first, o, p);
      } else {
        FaultStepMovesHeld(x, op, t, noneFree, first, o, p);
      }
    }
  }

  /** A step changes how often a page is at a place only by its move. */
  ghost predicate BalancedAt(s: State, ev: Event, q: Place, p: PageId)
    requires Enabled(s, ev) && !Violates(s, ev)
  {
    var m, spot := MoveOf(s, ev), SpotOf(s, ev, q);
    Multiplicity(Apply(s, ev), q, p) + (if spot.Some? then From(m, spot.value, p) else 0)
    == Multiplicity(s, q, p) + (if spot.Some? then To(m, spot.value, p) else 0)
  }

  lemma BalancedFree(s: State, ev: Event, p: PageId)
    requires Enabled(s, ev) && !Violates(s, ev)
    ensures BalancedAt(s, ev, Free, p)
  {
    hide EnclEnabled, OpEnabled, StartEnabled, EnclEffect, OpEffect, StartEffect, OpViolates, EnclMove, OpMove,
         PoolMoves, Op.Count;
    if !ev.Remove? {
      Locally(s, ev, Secs, p);
    }
    FreeBalanced(s, ev, p);
  }

  lemma BalancedInside(s: State, ev: Event, q: Place, p: PageId)
    requires Enabled(s, ev) && !Violates(s, ev) && q.Inside?
    requires ev.Remove? ==> s.encls[ev.e].worker.WorkerIdle?
    ensures BalancedAt(s, ev, q, p)
  {
    hide EnclEnabled, OpEnabled, StartEnabled, EnclEffect, OpEffect, StartEffect, OpViolates, EnclMove, OpMove,
         PoolMoves, Op.Count, SlotCount;
    if ev.Remove? {
      Emptied(s.encls[ev.e], q.slot, p);
    } else {
      Locally(s, ev, q.slot, p);
    }
  }

  lemma BalancedHeld(s: State, ev: Event, q: Place, p: PageId)
    requires Enabled(s, ev) && !Violates(s, ev) && q.Held?
    ensures BalancedAt(s, ev, q, p)
  {
    hide EnclEnabled, OpEnabled, StartEnabled, EnclEffect, OpEffect, StartEffect, OpViolates, EnclMove, OpMove,
         PoolMoves, Op.Count, SlotCount;
    if !ev.Remove? {
      Locally(s, ev, Secs, p);
    }
  }

  lemma Balanced(s: State, ev: Event, q: Place, p: PageId)
    requires Enabled(s, ev) && !Violates(s, ev)
    requires ev.Remove? ==> s.encls[ev.e].worker.WorkerIdle?
    ensures BalancedAt(s, ev, q, p)
  {
    hide Enabled, Violates, BalancedAt;
    match q
    case Free => BalancedFree(s, ev, p);
    case Inside(_, _) => BalancedInside(s, ev, q, p);
    case Held(_) => BalancedHeld(s, ev, q, p);
  }

  lemma Emptied(x: Encl, slot: Slot, p: PageId)
    requires NothingResident(x) && x.vaPages == [] && x.secs.None? && x.worker.WorkerIdle?
    ensures SlotCount(x, slot, p) == 0
  {
  }

  ghost function PlaceOf(s: State, ev: Event, spot: Spot): Place
    requires Enabled(s, ev) && (spot.InOp? ==> ev.Start? || ev.OnOp?)
  {
    match spot
    case InPool => Free
    case In(slot) => Inside(EnclOf(s, ev), slot)
    case InOp => Held(ev.o)
  }

  lemma MoveOfOp(s: State, ev: Event)
    requires Enabled(s, ev) && !Violates(s, ev)
    ensures var m := MoveOf(s, ev); m.Move? ==> m.from != m.to && (m.from.InOp? || m.to.InOp? ==> ev.Start? || ev.OnOp?)
  {
    if ev.OnEncl? {
      Locally(s, ev, Secs, 0);
    }
  }

  /** A page that was in one place is in one place after the step. */
  lemma PageAfterStep(s: State, ev: Event, p: PageId)
    requires Enabled(s, ev) && !Violates(s, ev) && HasPlace(s, p)
    requires ev.Remove? ==> s.encls[ev.e].worker.WorkerIdle?
    ensures HasPlace(Apply(s, ev), p)
  {
    hide MoveOf, Multiplicity, Apply, Enabled, Violates;
    var here :| LivesAt(s, p, here);
    var m := MoveOf(s, ev);
    MoveOfOp(s, ev);
    if m.Move? && m.page == p {
      Balanced(s, ev, PlaceOf(s, ev, m.from), p);
      assert PlaceOf(s, ev, m.from) == here;
    }
    var here' := if m.Move? && m.page == p then PlaceOf(s, ev, m.to) else here;
    forall q
      ensures Multiplicity(Apply(s, ev), q, p) == Bit(q == here')
    {
      AtPlace(s, ev, p, here, q);
    }
    assert LivesAt(Apply(s, ev), p, here');
  }

  /** A step moves one page at most: all the others are as often at each place as they were. */
  lemma OnePageMoves(s: State, ev: Event) returns (moved: PageId)
    requires EnclsOk(s) && Enabled(s, ev) && !Violates(s, ev)
    ensures forall p, q | p != moved :: Multiplicity(Apply(s, ev), q, p) == Multiplicity(s, q, p)
  {
    hide MoveOf, Multiplicity, Apply, Enabled, Violates, EnclsOk;
    WorkerIdleAtRemoval(s, ev);
    var m := MoveOf(s, ev);
    moved := if m.Move? then m.page else 0;
    forall p, q | p != moved
      ensures Multiplicity(Apply(s, ev), q, p) == Multiplicity(s, q, p)
    {
      Balanced(s, ev, q, p);
    }
  }

  lemma AtPlace(s: State, ev: Event, p: PageId, here: Place, q: Place)
    requires Enabled(s, ev) && !Violates(s, ev) && LivesAt(s, p, here)
    requires ev.Remove? ==> s.encls[ev.e].worker.WorkerIdle?
    requires var m := MoveOf(s, ev);
             m.Move? ==> m.from != m.to && (m.from.InOp? || m.to.InOp? ==> ev.Start? || ev.OnOp?)
                         && (m.page == p ==> PlaceOf(s, ev, m.from) == here)
    ensures var m := MoveOf(s, ev);
            Multiplicity(Apply(s, ev), q, p) == Bit(q == if m.Move? && m.page == p then PlaceOf(s, ev, m.to) else here)
  {
    hide MoveOf, Multiplicity, Apply, Enabled, Violates;
    Balanced(s, ev, q, p);
  }

  lemma NoStrangers(s: State, ev: Event, q: Place, p: PageId)
    requires Enabled(s, ev) && !Violates(s, ev) && forall r :: Multiplicity(s, r, p) == 0
    requires ev.Remove? ==> s.encls[ev.e].worker.WorkerIdle?
    ensures Multiplicity(Apply(s, ev), q, p) == 0
  {
    hide MoveOf, Multiplicity, Apply, Enabled, Violates;
    var m := MoveOf(s, ev);
    MoveOfOp(s, ev);
    if m.Move? {
      Balanced(s, ev, PlaceOf(s, ev, m.from), p);
    }
    Balanced(s, ev, q, p);
  }

  lemma CountersAfterStep(s: State, ev: Event)
    requires Enabled(s, ev) && !Violates(s, ev) && CountersAgree(s)
    requires ev.Remove? || PoolMoves(MoveOf(s, ev), EffectOf(s, ev).pool, FirstFree(s))
    ensures CountersAgree(Apply(s, ev))
  {
    hide MoveOf;
  }

  // ----- Where an enclave page is listed -----

  /** Not resident; on the load list; in the cluster of a swapping operation; on the load list and in use by a
      debugger's access. */
  datatype Listing = Out | Listed | Clustered(o: OpId) | Accessed(o: OpId)

  /** What the enclave shows of a page listed as `k`. */
  predicate Shown(x: Encl, a: Addr, k: Listing) {
    && (!k.Out? <==> Resident(x, a))
    && multiset(x.loadList)[a] == Bit(k.Listed? || k.Accessed?)
    && (k.Out? && a in x.pages ==> !x.pages[a].reserved)
    && (k.Clustered? || k.Accessed? ==> a in x.pages && x.pages[a].reserved)
  }

  /** What an operation has of a page listed as `k`. */
  predicate Share(op: Option<Op>, o: OpId, a: Addr, k: Listing) {
    && (if op.Some? then multiset(op.value.Cluster())[a] else 0) == Bit(k == Clustered(o))
    && (op == Some(Accessing(a)) <==> k == Accessed(o))
  }

  function OpOn(s: State, o: OpId, id: EnclId): Option<Op> {
    if o in s.ops && s.ops[o].e == id then Some(s.ops[o].op) else None
  }

  ghost predicate ListedAs(s: State, id: EnclId, a: Addr, k: Listing)
    requires id in s.encls
  {
    Shown(s.encls[id], a, k) && forall o :: Share(OpOn(s, o, id), o, a, k)
  }

  ghost predicate HasListing(s: State, id: EnclId, a: Addr)
    requires id in s.encls
  {
    exists k :: ListedAs(s, id, a, k)
  }

  ghost predicate ListingsOk(s: State) {
    forall id, a {:trigger HasListing(s, id, a)} | id in s.encls :: HasListing(s, id, a)
  }

  /** A step changes one enclave, and no operation but its own. */
  lemma ApplyElsewhere(s: State, ev: Event, o: OpId, id: EnclId)
    requires Enabled(s, ev) && !Violates(s, ev) && o in s.ops && !(ev.OnOp? && ev.o == o)
    requires id in s.encls && !(ev.Remove? && ev.e == id)
    ensures o in Apply(s, ev).ops && Apply(s, ev).ops[o] == s.ops[o] && id in Apply(s, ev).encls
    ensures Apply(s, ev).encls[id]
            == if !ev.Remove? && EnclOf(s, ev) == id then EffectOf(s, ev).x else s.encls[id]
  {
    hide OpEnabled, OpViolates, OpEffect, EnclEnabled, EnclViolates, EnclEffect, StartEnabled, StartEffect, EffectOf;
  }

  lemma ApplyOwn(s: State, ev: Event)
    requires Enabled(s, ev) && !Violates(s, ev) && (ev.Start? || ev.OnOp?)
    ensures var f, id, s' := EffectOf(s, ev), EnclOf(s, ev), Apply(s, ev);
            && id in s'.encls && s'.encls[id] == f.x
            && (if f.op.Some? then ev.o in s'.ops && s'.ops[ev.o] == RunningOp(id, f.op.value) else ev.o !in s'.ops)
  {
    hide OpEnabled, OpViolates, OpEffect, EnclEnabled, EnclViolates, EnclEffect, StartEnabled, StartEffect, EffectOf;
  }

  // ----- Each enclave and each operation -----

  predicate EnclOk(x: Encl) {
    // The count never falls below the number of resident children; it is off by the failed EEXTENDs.
    && (if x.phase.Releasing? then x.secsChildCnt >= |ResidentSet(x)|
        else x.secsChildCnt == |ResidentSet(x)| + x.unmeasured)
    && (!x.phase.Releasing? ==> (x.secs.None? <==> x.secsEvicted))
    && (!x.phase.Releasing? && x.secsEvicted ==> x.initialized && NothingResident(x))
    // Pages are added before EINIT only; a page waits in one place.
    && (x.requests != [] || !x.worker.WorkerIdle? ==> !x.initialized && x.phase.Running?)
    && (forall a | a in x.requests :: a in x.pages && x.pages[a].epc.None? && multiset(x.requests)[a] == 1)
    && (!x.worker.WorkerIdle? ==>
          x.worker.addr in x.pages && x.pages[x.worker.addr].epc.None? && x.worker.addr !in x.requests)
    && (x.phase.Creating? ==> x.pages == map[] && !x.initialized)
    && (!x.phase.Running? ==> x.lock.None?)
  }

  function ResidentSet(x: Encl): set<Addr> {
    set a | a in x.pages && x.pages[a].epc.Some?
  }

  predicate OpOk(x: Encl, op: Op, o: OpId) {
    && (if op.VaHas? || op.GivingBack? then !x.phase.Releasing? else x.phase.Running?)
    && (op.Locks() <==> x.lock == Some(o))
    && (op.Faulting() ==> x.initialized && op.addr in x.pages && x.pages[op.addr].epc.None?)
    && (op.FaultNeedsSecs? || op.FaultHasSecs? ==> x.secsEvicted)
    && (op.FaultLoad? ==> !x.secsEvicted)
    && (op.Isolated? ==> op.cluster != [])
    && (op.Writing? ==> x.secs.Some?)
    && (op.GivingBack? ==> op.unused != [])
  }

  predicate LockOk(s: State, id: EnclId, x: Encl) {
    x.lock.Some? ==> x.lock.value in s.ops && s.ops[x.lock.value].e == id
  }

  ghost predicate EnclsOk(s: State) {
    forall id | id in s.encls :: EnclOk(s.encls[id]) && LockOk(s, id, s.encls[id])
  }

  ghost predicate OpsOk(s: State) {
    forall o | o in s.ops :: s.ops[o].e in s.encls && OpOk(s.encls[s.ops[o].e], s.ops[o].op, o)
  }

  ghost predicate Inv(s: State) {
    Conserved(s) && CountersAgree(s) && ListingsOk(s) && EnclsOk(s) && OpsOk(s)
  }

  // ----- What a step does to a listing -----

  function EnclListing(x: Encl, t: EnclStep, a: Addr, k: Listing): Listing {
    if t == WorkerEadd(true) && x.worker.HasPage? && a == x.worker.addr then Listed
    else if t == ReleaseChild(a) then Out
    else k
  }

  function StartListing(x: Encl, t: StartStep, o: OpId, a: Addr, k: Listing): Listing {
    if t == FaultStart(a, true) && Resident(x, a) then Accessed(o) else k
  }

  function OpListing(x: Encl, op: Op, t: OpStep, o: OpId, a: Addr, k: Listing): Listing {
    if t.FaultEldu? && t.ok && op.FaultLoad? && a == op.addr then (if t.inserted
        && op.reserve then Accessed(o) else Listed)
    else if t.AccessEnd? && op == Accessing(a) then Listed
    else if t.SwapScan? && !t.young && x.loadList != [] && a == x.loadList[0] && a in x.pages
        && !x.pages[a].reserved then Clustered(o)
    else if t.SwapEvict? && op.Writing? && op.cluster != [] && a == op.cluster[0] then Out
    else k
  }

  lemma {:induction false} UnlistedCount(q: seq<Addr>, a: Addr, b: Addr)
    ensures multiset(Unlisted(q, a))[b] == multiset(q)[b] - Bit(b == a && a in q)
  {
    if q != [] {
      assert q == [q[0]] + q[1..];
      UnlistedCount(q[1..], a, b);
    }
  }

  lemma EaddListing(x: Encl, t: EnclStep, noneFree: bool, first: PageId, a: Addr, k: Listing)
    requires EnclEnabled(x, t, noneFree) && !EnclViolates(x, t) && Shown(x, a, k)
    requires t.WorkerEadd?
    ensures var k' := EnclListing(x, t, a, k);
            Shown(EnclEffect(x, t, noneFree, first).x, a, k') && (k' == k || (!k.Clustered? && !k.Accessed?))
  {
  }

  lemma ReleaseListing(x: Encl, t: EnclStep, noneFree: bool, first: PageId, a: Addr, k: Listing)
    requires EnclEnabled(x, t, noneFree) && !EnclViolates(x, t) && Shown(x, a, k)
    requires t.ReleaseChild? && !k.Clustered? && !k.Accessed?
    ensures var k' := EnclListing(x, t, a, k);
            Shown(EnclEffect(x, t, noneFree, first).x, a, k') && (k' == k || (!k.Clustered? && !k.Accessed?))
  {
    UnlistedCount(x.loadList, t.addr, a);
  }

  lemma EnclStepListing(x: Encl, t: EnclStep, noneFree: bool, first: PageId, a: Addr, k: Listing)
    requires EnclEnabled(x, t, noneFree) && !EnclViolates(x, t) && Shown(x, a, k)
    requires !(t.WorkerEadd? || t.ReleaseChild?)
    ensures var k' := EnclListing(x, t, a, k);
            Shown(EnclEffect(x, t, noneFree, first).x, a, k') && (k' == k || (!k.Clustered? && !k.Accessed?))
  {
  }

  lemma StartStepListing(x: Encl, t: StartStep, noneFree: bool, first: PageId, o: OpId, a: Addr, k: Listing)
    requires StartEnabled(x, t, noneFree) && Shown(x, a, k) && k != Clustered(o) && k != Accessed(o)
    ensures var f, k' := StartEffect(x, t, noneFree, first, o), StartListing(x, t, o, a, k);
            Shown(f.x, a, k') && Share(f.op, o, a, k') && (k' == k || k.Listed?)
  {
  }

  lemma ElduListing(x: Encl, op: Op, t: OpStep, noneFree: bool, first: PageId, o: OpId, a: Addr, k: Listing)
    requires OpEnabled(x, op, t, noneFree) && !OpViolates(x, op, t, noneFree) && Shown(x, a, k)
             && Share(Some(op), o, a, k)
    requires t.FaultEldu?
    ensures OpKeepsListing(x, op, t, noneFree, first, o, a, k)
  {
    hide OpEffect, Shown, Share, OpKeepsListing;
    if a == op.addr {
      LoadedListing(x, op, t, noneFree, first, o, a, k);
    } else {
      NotLoadedListing(x, op, t, noneFree, first, o, a, k);
    }
  }

  lemma LoadedListing(x: Encl, op: Op, t: OpStep, noneFree: bool, first: PageId, o: OpId, a: Addr, k: Listing)
    requires OpEnabled(x, op, t, noneFree) && !OpViolates(x, op, t, noneFree) && Shown(x, a, k)
             && Share(Some(op), o, a, k)
    requires t.FaultEldu? && op.FaultLoad? && a == op.addr
    ensures OpKeepsListing(x, op, t, noneFree, first, o, a, k)
  {
  }

  lemma NotLoadedListing(x: Encl, op: Op, t: OpStep, noneFree: bool, first: PageId, o: OpId, a: Addr, k: Listing)
    requires OpEnabled(x, op, t, noneFree) && !OpViolates(x, op, t, noneFree) && Shown(x, a, k)
             && Share(Some(op), o, a, k)
    requires t.FaultEldu? && op.FaultLoad? && a != op.addr
    ensures OpKeepsListing(x, op, t, noneFree, first, o, a, k)
  {
  }

  lemma AccessEndListing(x: Encl, op: Op, t: OpStep, noneFree: bool, first: PageId, o: OpId, a: Addr, k: Listing)
    requires OpEnabled(x, op, t, noneFree) && !OpViolates(x, op, t, noneFree) && Shown(x, a, k)
             && Share(Some(op), o, a, k)
    requires t.AccessEnd?
    ensures OpKeepsListing(x, op, t, noneFree, first, o, a, k)
  {
  }

  lemma PoolListing(x: Encl, op: Op, t: OpStep, noneFree: bool, first: PageId, o: OpId, a: Addr, k: Listing)
    requires OpEnabled(x, op, t, noneFree) && !OpViolates(x, op, t, noneFree) && Shown(x, a, k)
             && Share(Some(op), o, a, k)
    requires t.VaEnd? || t.GiveOneBack?
    ensures OpKeepsListing(x, op, t, noneFree, first, o, a, k)
  {
  }

  lemma SecsListing(x: Encl, op: Op, t: OpStep, noneFree: bool, first: PageId, o: OpId, a: Addr, k: Listing)
    requires OpEnabled(x, op, t, noneFree) && !OpViolates(x, op, t, noneFree) && Shown(x, a, k)
             && Share(Some(op), o, a, k)
    requires t.FaultElduSecs?
    ensures OpKeepsListing(x, op, t, noneFree, first, o, a, k)
  {
  }

  lemma AllocationListing(x: Encl, op: Op, t: OpStep, noneFree: bool, first: PageId, o: OpId, a: Addr, k: Listing)
    requires OpEnabled(x, op, t, noneFree) && !OpViolates(x, op, t, noneFree) && Shown(x, a, k)
             && Share(Some(op), o, a, k)
    requires t.FaultPage? || t.FaultNoPage? || t.FaultSecsPage? || t.FaultNoSecsPage?
    ensures OpKeepsListing(x, op, t, noneFree, first, o, a, k)
  {
  }

  lemma LastAddr(q: seq<Addr>, b: Addr, a: Addr)
    ensures multiset(q + [b])[a] == multiset(q)[a] + Bit(b == a)
  {
  }

  /** A page that is passed over goes to the end of the list. */
  lemma RotateListing(x: Encl, op: Op, t: OpStep, noneFree: bool, first: PageId, o: OpId, a: Addr, k: Listing)
    requires OpEnabled(x, op, t, noneFree) && !OpViolates(x, op, t, noneFree) && Shown(x, a, k)
             && Share(Some(op), o, a, k)
    requires t.SwapScan? && (t.young || x.pages[x.loadList[0]].reserved)
    ensures OpKeepsListing(x, op, t, noneFree, first, o, a, k)
  {
    FirstCounts(x.loadList, a);
    LastAddr(x.loadList[1..], x.loadList[0], a);
  }

  /** A page that is isolated goes from the list to the cluster. */
  lemma IsolateListing(x: Encl, op: Op, t: OpStep, noneFree: bool, first: PageId, o: OpId, a: Addr, k: Listing)
    requires OpEnabled(x, op, t, noneFree) && !OpViolates(x, op, t, noneFree) && Shown(x, a, k)
             && Share(Some(op), o, a, k)
    requires t.SwapScan? && !t.young && !x.pages[x.loadList[0]].reserved
    ensures OpKeepsListing(x, op, t, noneFree, first, o, a, k)
  {
    hide OpEffect, Shown, Share, OpKeepsListing;
    if a == x.loadList[0] {
      IsolatedListing(x, op, t, noneFree, first, o, a, k);
    } else {
      NotIsolatedListing(x, op, t, noneFree, first, o, a, k);
    }
  }

  lemma IsolatedListing(x: Encl, op: Op, t: OpStep, noneFree: bool, first: PageId, o: OpId, a: Addr, k: Listing)
    requires OpEnabled(x, op, t, noneFree) && !OpViolates(x, op, t, noneFree) && Shown(x, a, k)
             && Share(Some(op), o, a, k)
    requires t.SwapScan? && !t.young && !x.pages[x.loadList[0]].reserved && a == x.loadList[0]
    ensures OpKeepsListing(x, op, t, noneFree, first, o, a, k)
  {
    FirstCounts(x.loadList, a);
    LastAddr(op.cluster, a, a);
    assert k.Listed?;
  }

  lemma NotIsolatedListing(x: Encl, op: Op, t: OpStep, noneFree: bool, first: PageId, o: OpId, a: Addr, k: Listing)
    requires OpEnabled(x, op, t, noneFree) && !OpViolates(x, op, t, noneFree) && Shown(x, a, k)
             && Share(Some(op), o, a, k)
    requires t.SwapScan? && !t.young && !x.pages[x.loadList[0]].reserved && a != x.loadList[0]
    ensures OpKeepsListing(x, op, t, noneFree, first, o, a, k)
  {
    FirstCounts(x.loadList, a);
    LastAddr(op.cluster, x.loadList[0], a);
  }

  lemma ScanListing(x: Encl, op: Op, t: OpStep, noneFree: bool, first: PageId, o: OpId, a: Addr, k: Listing)
    requires OpEnabled(x, op, t, noneFree) && !OpViolates(x, op, t, noneFree) && Shown(x, a, k)
             && Share(Some(op), o, a, k)
    requires t.SwapScan?
    ensures OpKeepsListing(x, op, t, noneFree, first, o, a, k)
  {
    hide OpEffect, Shown, Share, OpKeepsListing;
    if t.young || x.pages[x.loadList[0]].reserved {
      RotateListing(x, op, t, noneFree, first, o, a, k);
    } else {
      IsolateListing(x, op, t, noneFree, first, o, a, k);
    }
  }

  lemma EvictListing(x: Encl, op: Op, t: OpStep, noneFree: bool, first: PageId, o: OpId, a: Addr, k: Listing)
    requires OpEnabled(x, op, t, noneFree) && !OpViolates(x, op, t, noneFree) && Shown(x, a, k)
             && Share(Some(op), o, a, k)
    requires t.SwapEvict?
    ensures OpKeepsListing(x, op, t, noneFree, first, o, a, k)
  {
    FirstCounts(op.cluster, a);
  }

  lemma SwapStepListing(x: Encl, op: Op, t: OpStep, noneFree: bool, first: PageId, o: OpId, a: Addr, k: Listing)
    requires OpEnabled(x, op, t, noneFree) && !OpViolates(x, op, t, noneFree) && Shown(x, a, k)
             && Share(Some(op), o, a, k)
    requires IsSwapStep(t)
    requires !(t.SwapScan? || t.SwapEvict?)
    ensures OpKeepsListing(x, op, t, noneFree, first, o, a, k)
  {
  }

  predicate OpKeepsListing(x: Encl, op: Op, t: OpStep, noneFree: bool, first: PageId, o: OpId, a: Addr, k: Listing)
    requires OpEnabled(x, op, t, noneFree) && !OpViolates(x, op, t, noneFree)
  {
    var f, k' := OpEffect(x, op, t, noneFree, first, o), OpListing(x, op, t, o, a, k);
    Shown(f.x, a, k') && Share(f.op, o, a, k')
        && (k' == k || k.Out? || k.Listed? || k == Clustered(o) || k == Accessed(o))
  }

  // ----- What a step does to the enclave and the operations on it -----

  lemma OneMoreResident(x: Encl, a: Addr, page: EnclPage)
    ensures var x' := SetPage(x, a, page);
            |ResidentSet(x')| + Bit(Resident(x, a)) == |ResidentSet(x)| + Bit(page.epc.Some?)
  {
    var rest := ResidentSet(x) - {a};
    assert ResidentSet(x) == if Resident(x, a) then rest + {a} else rest;
    assert ResidentSet(SetPage(x, a, page)) == if page.epc.Some? then rest + {a} else rest;
  }

  lemma EnclStepKeepsEncl(x: Encl, t: EnclStep, noneFree: bool, first: PageId)
    requires EnclEnabled(x, t, noneFree) && !EnclViolates(x, t) && EnclOk(x)
    ensures EnclOk(EnclEffect(x, t, noneFree, first).x)
  {
    hide EnclEnabled, EnclViolates, EnclEffect, EnclOk;
    if t.WorkerEadd? {
      EaddKeepsEncl(x, t, noneFree, first);
    } else if t.Request? || t.ReleaseChild? {
      PageKeepsEncl(x, t, noneFree, first);
    } else if t.WorkerTake? {
      TakeKeepsEncl(x, t, noneFree, first);
    } else {
      OtherKeepsEncl(x, t, noneFree, first);
    }
  }

  lemma EaddKeepsEncl(x: Encl, t: EnclStep, noneFree: bool, first: PageId)
    requires EnclEnabled(x, t, noneFree) && !EnclViolates(x, t) && EnclOk(x) && t.WorkerEadd?
    ensures EnclOk(EnclEffect(x, t, noneFree, first).x)
  {
    OneMoreResident(x, x.worker.addr, EnclEffect(x, t, noneFree, first).x.pages[x.worker.addr]);
  }

  lemma PageKeepsEncl(x: Encl, t: EnclStep, noneFree: bool, first: PageId)
    requires EnclEnabled(x, t, noneFree) && !EnclViolates(x, t) && EnclOk(x) && (t.Request? || t.ReleaseChild?)
    ensures EnclOk(EnclEffect(x, t, noneFree, first).x)
  {
    OneMoreResident(x, t.addr, EnclPage(None, false));
  }

  lemma TakeKeepsEncl(x: Encl, t: EnclStep, noneFree: bool, first: PageId)
    requires EnclEnabled(x, t, noneFree) && !EnclViolates(x, t) && EnclOk(x) && t.WorkerTake?
    ensures EnclOk(EnclEffect(x, t, noneFree, first).x)
  {
    assert x.requests == [x.requests[0]] + x.requests[1..];
  }

  lemma OtherKeepsEncl(x: Encl, t: EnclStep, noneFree: bool, first: PageId)
    requires EnclEnabled(x, t, noneFree) && !EnclViolates(x, t) && EnclOk(x)
    requires !t.WorkerEadd? && !t.Request? && !t.ReleaseChild? && !t.WorkerTake?
    ensures EnclOk(EnclEffect(x, t, noneFree, first).x)
  {
  }

  lemma StartStepKeepsEncl(x: Encl, t: StartStep, noneFree: bool, first: PageId, o: OpId)
    requires StartEnabled(x, t, noneFree) && EnclOk(x)
    ensures EnclOk(StartEffect(x, t, noneFree, first, o).x)
  {
    if t.FaultStart? {
      OneMoreResident(x, t.addr, x.pages[t.addr].(reserved := true));
    }
  }

  lemma SwapStepKeepsEncl(x: Encl, op: Op, t: OpStep, noneFree: bool, first: PageId, o: OpId)
    requires OpEnabled(x, op, t, noneFree) && !OpViolates(x, op, t, noneFree) && EnclOk(x) && OpOk(x, op, o)
    requires IsSwapStep(t)
    ensures EnclOk(OpEffect(x, op, t, noneFree, first, o).x)
  {
    hide OpEnabled, OpViolates, OpEffect, EnclOk, OpOk;
    if t.SwapScan? {
      ScanKeepsEncl(x, op, t, noneFree, first, o);
    } else if t.SwapEvict? {
      EvictKeepsEncl(x, op, t, noneFree, first, o);
    } else {
      SwapEndKeepsEncl(x, op, t, noneFree, first, o);
    }
  }

  lemma ScanKeepsEncl(x: Encl, op: Op, t: OpStep, noneFree: bool, first: PageId, o: OpId)
    requires OpEnabled(x, op, t, noneFree) && !OpViolates(x, op, t, noneFree) && EnclOk(x) && OpOk(x, op, o)
    requires t.SwapScan?
    ensures EnclOk(OpEffect(x, op, t, noneFree, first, o).x)
  {
    OneMoreResident(x, x.loadList[0], OpEffect(x, op, t, noneFree, first, o).x.pages[x.loadList[0]]);
  }

  lemma EvictKeepsEncl(x: Encl, op: Op, t: OpStep, noneFree: bool, first: PageId, o: OpId)
    requires OpEnabled(x, op, t, noneFree) && !OpViolates(x, op, t, noneFree) && EnclOk(x) && OpOk(x, op, o)
    requires t.SwapEvict?
    ensures EnclOk(OpEffect(x, op, t, noneFree, first, o).x)
  {
    OneMoreResident(x, op.cluster[0], EnclPage(None, false));
  }

  lemma SwapEndKeepsEncl(x: Encl, op: Op, t: OpStep, noneFree: bool, first: PageId, o: OpId)
    requires OpEnabled(x, op, t, noneFree) && !OpViolates(x, op, t, noneFree) && EnclOk(x) && OpOk(x, op, o)
    requires t.SwapIsolated? || t.SwapWrite? || t.SwapEnd?
    ensures EnclOk(OpEffect(x, op, t, noneFree, first, o).x)
  {
  }

  lemma FaultStepKeepsEncl(x: Encl, op: Op, t: OpStep, noneFree: bool, first: PageId, o: OpId)
    requires OpEnabled(x, op, t, noneFree) && !OpViolates(x, op, t, noneFree) && EnclOk(x) && OpOk(x, op, o)
    requires !IsSwapStep(t)
    ensures EnclOk(OpEffect(x, op, t, noneFree, first, o).x)
  {
    var x' := OpEffect(x, op, t, noneFree, first, o).x;
    if t.FaultEldu? || t.AccessEnd? {
      OneMoreResident(x, op.addr, x'.pages[op.addr]);
    }
  }

  lemma OwnOpOk(x: Encl, op: Op, t: OpStep, noneFree: bool, first: PageId, o: OpId)
    requires OpEnabled(x, op, t, noneFree) && !OpViolates(x, op, t, noneFree) && EnclOk(x) && OpOk(x, op, o)
    ensures var f := OpEffect(x, op, t, noneFree, first, o); f.op.Some? ==> OpOk(f.x, f.op.value, o)
    ensures var f := OpEffect(x, op, t, noneFree, first, o); f.x.lock == Some(o) ==> f.op.Some?
    ensures var f := OpEffect(x, op, t, noneFree, first, o);
            f.x.lock == x.lock || f.x.lock == Some(o) || f.x.lock == None
  {
  }

  lemma NewOpOk(x: Encl, t: StartStep, noneFree: bool, first: PageId, o: OpId)
    requires StartEnabled(x, t, noneFree) && EnclOk(x) && x.lock != Some(o)
    ensures var f := StartEffect(x, t, noneFree, first, o);
            && (f.op.Some? ==> OpOk(f.x, f.op.value, o)) && (f.x.lock == x.lock || (f.x.lock == Some(o) && f.op.Some?))
  {
  }

  /** A step leaves the other operations on its enclave as they were, and what they rely on. */
  lemma OtherOpOk(x: Encl, op: Op, t: OpStep, noneFree: bool, first: PageId, o: OpId, op2: Op, o2: OpId)
    requires OpEnabled(x, op, t, noneFree) && !OpViolates(x, op, t, noneFree) && OpOk(x, op, o)
    requires OpOk(x, op2, o2) && o2 != o
    ensures OpOk(OpEffect(x, op, t, noneFree, first, o).x, op2, o2)
  {
  }

  lemma OpOkAfterStart(x: Encl, t: StartStep, noneFree: bool, first: PageId, o: OpId, op2: Op, o2: OpId)
    requires StartEnabled(x, t, noneFree) && OpOk(x, op2, o2) && o2 != o
    ensures OpOk(StartEffect(x, t, noneFree, first, o).x, op2, o2)
  {
  }

  lemma OpOkAfterEnclStep(x: Encl, t: EnclStep, noneFree: bool, first: PageId, op2: Op, o2: OpId)
    requires EnclEnabled(x, t, noneFree) && !EnclViolates(x, t) && EnclOk(x) && OpOk(x, op2, o2) && !NeedsNoOps(t)
    ensures OpOk(EnclEffect(x, t, noneFree, first).x, op2, o2) && EnclEffect(x, t, noneFree, first).x.lock == x.lock
  {
  }

  // ----- Every step keeps the invariant -----

  lemma NonemptyResident(x: Encl)
    requires |ResidentSet(x)| == 0
    ensures NothingResident(x)
  {
    forall a | a in x.pages
      ensures x.pages[a].epc.None?
    {
      assert a !in ResidentSet(x);
    }
  }

  lemma OpNoViolation(x: Encl, op: Op, t: OpStep, noneFree: bool, o: OpId, k: Listing)
    requires OpEnabled(x, op, t, noneFree) && EnclOk(x) && OpOk(x, op, o)
    requires op.Cluster() != [] ==> Shown(x, op.Cluster()[0], k) && Share(Some(op), o, op.Cluster()[0], k)
    requires op.Accessing? ==> Shown(x, op.addr, k) && Share(Some(op), o, op.addr, k)
    requires t.SwapScan? ==> Resident(x, x.loadList[0])
    ensures !OpViolates(x, op, t, noneFree)
  {
    if op.Cluster() != [] {
      FirstCounts(op.Cluster(), op.Cluster()[0]);
      assert Resident(x, op.Cluster()[0]);
      assert op.Cluster()[0] in ResidentSet(x);
    }
    if x.secsChildCnt == 0 {
      NonemptyResident(x);
    }
  }

  lemma NoViolation(s: State, ev: Event)
    requires Inv(s) && Enabled(s, ev)
    ensures !Violates(s, ev)
  {
    hide OpEnabled, EnclEnabled, StartEnabled, OpViolates, EnclOk, OpOk, Conserved;
    if ev.OnOp? {
      var id, op := s.ops[ev.o].e, s.ops[ev.o].op;
      var x := s.encls[id];
      var k := Out;
      if op.Cluster() != [] {
        assert HasListing(s, id, op.Cluster()[0]);
        k :| ListedAs(s, id, op.Cluster()[0], k);
        assert Share(OpOn(s, ev.o, id), ev.o, op.Cluster()[0], k);
      } else if op.Accessing? {
        assert HasListing(s, id, op.addr);
        k :| ListedAs(s, id, op.addr, k);
        assert Share(OpOn(s, ev.o, id), ev.o, op.addr, k);
      }
      if ev.step.SwapScan? {
        ScansResident(s, ev);
      }
      OpNoViolation(x, op, ev.step, s.free == [], ev.o, k);
    } else if ev.OnEncl? {
      EnclNoViolation(s.encls[ev.e], ev.encl, s.free == []);
    }
  }

  lemma ScansResident(s: State, ev: Event)
    requires Inv(s) && Enabled(s, ev) && ev.OnOp? && ev.step.SwapScan?
    ensures var x := s.encls[s.ops[ev.o].e]; x.loadList != [] && Resident(x, x.loadList[0])
  {
    hide EnclOk, OpOk, Conserved;
    var id := s.ops[ev.o].e;
    var a := s.encls[id].loadList[0];
    assert HasListing(s, id, a);
    FirstCounts(s.encls[id].loadList, a);
  }

  lemma EnclNoViolation(x: Encl, t: EnclStep, noneFree: bool)
    requires EnclEnabled(x, t, noneFree) && EnclOk(x)
    ensures !EnclViolates(x, t)
  {
  }

  lemma ConservedAfterStep(s: State, ev: Event)
    requires Inv(s) && Enabled(s, ev) && !Violates(s, ev)
    ensures Conserved(Apply(s, ev)) && CountersAgree(Apply(s, ev))
  {
    WorkerIdleAtRemoval(s, ev);
    if !ev.Remove? {
      Locally(s, ev, Secs, 0);
    }
    CountersAfterStep(s, ev);
    hide MoveOf, Multiplicity, Enabled, Violates, EnclsOk, OpsOk, ListingsOk;
    forall p | 0 <= p < Apply(s, ev).total
      ensures HasPlace(Apply(s, ev), p)
    {
      PageAfterStep(s, ev, p);
    }
    forall p: PageId, q | p >= Apply(s, ev).total
      ensures Multiplicity(Apply(s, ev), q, p) == 0
    {
      NoStrangers(s, ev, q, p);
    }
  }

  lemma WorkerIdleAtRemoval(s: State, ev: Event)
    requires EnclsOk(s) && Enabled(s, ev)
    ensures ev.Remove? ==> s.encls[ev.e].worker.WorkerIdle?
  {
  }

  /** A listing that a step does not concern. */
  lemma ListingElsewhere(s: State, ev: Event, id: EnclId, a: Addr)
    requires Enabled(s, ev) && !Violates(s, ev) && id in s.encls && id != EnclOf(s, ev) && HasListing(s, id, a)
    ensures id in Apply(s, ev).encls && HasListing(Apply(s, ev), id, a)
  {
    hide OpEnabled, EnclEnabled, StartEnabled, OpViolates, OpEffect, EnclEffect, StartEffect, Shown, Share;
    var k :| ListedAs(s, id, a, k);
    forall o
      ensures Share(OpOn(Apply(s, ev), o, id), o, a, k)
    {
      assert Share(OpOn(s, o, id), o, a, k);
      assert OpOn(Apply(s, ev), o, id) == OpOn(s, o, id);
    }
    assert ListedAs(Apply(s, ev), id, a, k);
  }

  lemma ListedByOp(s: State, id: EnclId, a: Addr, k: Listing)
    requires OpsOk(s) && id in s.encls && ListedAs(s, id, a, k) && (k.Clustered? || k.Accessed?)
    ensures s.encls[id].phase.Running?
  {
    assert Share(OpOn(s, k.o, id), k.o, a, k);
    assert OpOk(s.encls[id], s.ops[k.o].op, k.o);
  }

  /** What the operations have of a page after a step of one of them changed its listing. */
  lemma SharesAfterStep(s: State, s': State, id: EnclId, o: OpId, a: Addr, k: Listing, k': Listing)
    requires forall o2 :: Share(OpOn(s, o2, id), o2, a, k)
    requires forall o2 | o2 != o :: OpOn(s', o2, id) == OpOn(s, o2, id)
    requires Share(OpOn(s', o, id), o, a, k')
    requires k' == k || k.Out? || k.Listed? || k == Clustered(o) || k == Accessed(o)
    requires k' == k || k'.Out? || k'.Listed? || k' == Clustered(o) || k' == Accessed(o)
    ensures forall o2 :: Share(OpOn(s', o2, id), o2, a, k')
  {
    forall o2
      ensures Share(OpOn(s', o2, id), o2, a, k')
    {
      assert Share(OpOn(s, o2, id), o2, a, k);
    }
  }

  lemma OtherOpsAfterStep(s: State, ev: Event, id: EnclId)
    requires Enabled(s, ev) && !Violates(s, ev) && (ev.OnOp? || ev.Start?) && id == EnclOf(s, ev)
    ensures forall o | o != ev.o :: OpOn(Apply(s, ev), o, id) == OpOn(s, o, id)
    ensures OpOn(Apply(s, ev), ev.o, id) == EffectOf(s, ev).op
    ensures id in Apply(s, ev).encls && Apply(s, ev).encls[id] == EffectOf(s, ev).x
  {
    hide OpEnabled, EnclEnabled, StartEnabled, OpViolates, OpEffect, EnclEffect, StartEffect;
  }

  lemma ListingAfterEnclStep(s: State, ev: Event, a: Addr)
    requires Inv(s) && Enabled(s, ev) && !Violates(s, ev) && ev.OnEncl?
    ensures HasListing(Apply(s, ev), ev.e, a)
  {
    hide OpEnabled, StartEnabled, OpViolates, OpEffect, EnclEffect, StartEffect, Shown, Share, EnclOk, OpOk, Conserved;
    var x := s.encls[ev.e];
    assert HasListing(s, ev.e, a);
    var k :| ListedAs(s, ev.e, a, k);
    if k.Clustered? || k.Accessed? {
      ListedByOp(s, ev.e, a, k);
    }
    if ev.encl.WorkerEadd? {
      EaddListing(x, ev.encl, s.free == [], FirstFree(s), a, k);
    } else if ev.encl.ReleaseChild? {
      ReleaseListing(x, ev.encl, s.free == [], FirstFree(s), a, k);
    } else {
      EnclStepListing(x, ev.encl, s.free == [], FirstFree(s), a, k);
    }
    var k' := EnclListing(x, ev.encl, a, k);
    SharesKept(s, Apply(s, ev), ev.e, a, k, k');
    assert ListedAs(Apply(s, ev), ev.e, a, k');
  }

  lemma SharesKept(s: State, s': State, id: EnclId, a: Addr, k: Listing, k': Listing)
    requires s'.ops == s.ops && forall o :: Share(OpOn(s, o, id), o, a, k)
    requires k' == k || (!k.Clustered? && !k.Accessed? && !k'.Clustered? && !k'.Accessed?)
    ensures forall o :: Share(OpOn(s', o, id), o, a, k')
  {
    forall o
      ensures Share(OpOn(s', o, id), o, a, k')
    {
      assert Share(OpOn(s, o, id), o, a, k);
    }
  }

  lemma StartKeepsOps(s: State, ev: Event)
    requires Enabled(s, ev) && !Violates(s, ev) && ev.Start?
    ensures forall o | o != ev.o :: OpOn(Apply(s, ev), o, ev.e) == OpOn(s, o, ev.e)
  {
    hide OpEnabled, OpViolates, OpEffect, EnclEnabled, EnclViolates, EnclEffect, StartEnabled, StartEffect, EffectOf;
  }

  lemma ListingAfterStart(s: State, ev: Event, a: Addr)
    requires Inv(s) && Enabled(s, ev) && !Violates(s, ev) && ev.Start?
    ensures HasListing(Apply(s, ev), ev.e, a)
  {
    hide OpEnabled, EnclEnabled, StartEnabled, OpViolates, OpEffect, EnclEffect, StartEffect, Shown, EnclOk, OpOk,
         Conserved, Apply;
    var x := s.encls[ev.e];
    assert HasListing(s, ev.e, a);
    var k :| ListedAs(s, ev.e, a, k);
    assert Share(OpOn(s, ev.o, ev.e), ev.o, a, k);
    StartStepListing(x, ev.start, s.free == [], FirstFree(s), ev.o, a, k);
    var k' := StartListing(x, ev.start, ev.o, a, k);
    ApplyOwn(s, ev);
    StartKeepsOps(s, ev);
    forall o
      ensures Share(OpOn(Apply(s, ev), o, ev.e), o, a, k')
    {
      assert Share(OpOn(s, o, ev.e), o, a, k);
    }
    assert ListedAs(Apply(s, ev), ev.e, a, k');
  }

  lemma ListingAfterOpStep(s: State, ev: Event, a: Addr)
    requires Inv(s) && Enabled(s, ev) && !Violates(s, ev) && ev.OnOp?
    ensures HasListing(Apply(s, ev), s.ops[ev.o].e, a)
  {
    hide OpEnabled, EnclEnabled, StartEnabled, OpViolates, OpEffect, EnclEffect, StartEffect, Shown, Share, Apply,
         EnclOk, OpOk, Conserved;
    var id, op := s.ops[ev.o].e, s.ops[ev.o].op;
    var x := s.encls[id];
    assert HasListing(s, id, a);
    var k :| ListedAs(s, id, a, k);
    assert Share(OpOn(s, ev.o, id), ev.o, a, k);
    if ev.step.SwapScan? {
      ScanListing(x, op, ev.step, s.free == [], FirstFree(s), ev.o, a, k);
    } else if ev.step.SwapEvict? {
      EvictListing(x, op, ev.step, s.free == [], FirstFree(s), ev.o, a, k);
    } else if IsSwapStep(ev.step) {
      SwapStepListing(x, op, ev.step, s.free == [], FirstFree(s), ev.o, a, k);
    } else if ev.step.FaultEldu? {
      ElduListing(x, op, ev.step, s.free == [], FirstFree(s), ev.o, a, k);
    } else if ev.step.AccessEnd? {
      AccessEndListing(x, op, ev.step, s.free == [], FirstFree(s), ev.o, a, k);
    } else if ev.step.FaultElduSecs? {
      SecsListing(x, op, ev.step, s.free == [], FirstFree(s), ev.o, a, k);
    } else if ev.step.VaEnd? || ev.step.GiveOneBack? {
      PoolListing(x, op, ev.step, s.free == [], FirstFree(s), ev.o, a, k);
    } else {
      AllocationListing(x, op, ev.step, s.free == [], FirstFree(s), ev.o, a, k);
    }
    var k' := OpListing(x, op, ev.step, ev.o, a, k);
    OtherOpsAfterStep(s, ev, id);
    SharesAfterStep(s, Apply(s, ev), id, ev.o, a, k, k');
    assert ListedAs(Apply(s, ev), id, a, k');
  }

  lemma ListingsAfterStep(s: State, ev: Event)
    requires Inv(s) && Enabled(s, ev) && !Violates(s, ev)
    ensures ListingsOk(Apply(s, ev))
  {
    hide OpEnabled, EnclEnabled, StartEnabled, OpViolates, OpEffect, EnclEffect, StartEffect, EnclOk, OpOk, Conserved;
    forall id, a: Addr | id in Apply(s, ev).encls
      ensures HasListing(Apply(s, ev), id, a)
    {
      if id != EnclOf(s, ev) {
        ListingElsewhere(s, ev, id, a);
      } else if ev.Create? {
        assert ListedAs(Apply(s, ev), id, a, Out);
      } else if ev.OnEncl? {
        ListingAfterEnclStep(s, ev, a);
      } else if ev.Start? {
        ListingAfterStart(s, ev, a);
      } else {
        ListingAfterOpStep(s, ev, a);
      }
    }
  }

  lemma EnclsAfterStep(s: State, ev: Event)
    requires Inv(s) && Enabled(s, ev) && !Violates(s, ev)
    ensures EnclsOk(Apply(s, ev))
  {
    hide OpEnabled, EnclEnabled, StartEnabled, OpViolates, OpEffect, EnclEffect, StartEffect, Conserved, ListingsOk,
         OpOk, EnclOk, LockOk;
    forall id | id in Apply(s, ev).encls
      ensures EnclOk(Apply(s, ev).encls[id]) && LockOk(Apply(s, ev), id, Apply(s, ev).encls[id])
    {
      if id != EnclOf(s, ev) {
        EnclElsewhere(s, ev, id);
      } else if ev.OnOp? {
        EnclAfterOpStep(s, ev);
      } else if ev.Start? {
        EnclAfterStart(s, ev);
      } else {
        EnclAfterOwnStep(s, ev);
      }
    }
  }

  lemma EnclElsewhere(s: State, ev: Event, id: EnclId)
    requires EnclsOk(s) && Enabled(s, ev) && !Violates(s, ev) && id in s.encls && id != EnclOf(s, ev)
    ensures EnclOk(Apply(s, ev).encls[id]) && LockOk(Apply(s, ev), id, Apply(s, ev).encls[id])
  {
    hide OpEnabled, EnclEnabled, StartEnabled, OpViolates, OpEffect, EnclEffect, StartEffect, EnclOk;
    assert LockOk(s, id, s.encls[id]);
  }

  lemma EnclAfterOpStep(s: State, ev: Event)
    requires EnclsOk(s) && OpsOk(s) && Enabled(s, ev) && !Violates(s, ev) && ev.OnOp?
    ensures var id := EnclOf(s, ev); EnclOk(Apply(s, ev).encls[id]) && LockOk(Apply(s, ev), id, Apply(s, ev).encls[id])
  {
    hide OpEnabled, EnclEnabled, StartEnabled, OpViolates, OpEffect, EnclEffect, StartEffect, EnclOk, OpOk;
    var id, op := s.ops[ev.o].e, s.ops[ev.o].op;
    assert LockOk(s, id, s.encls[id]);
    if IsSwapStep(ev.step) {
      SwapStepKeepsEncl(s.encls[id], op, ev.step, s.free == [], FirstFree(s), ev.o);
    } else {
      FaultStepKeepsEncl(s.encls[id], op, ev.step, s.free == [], FirstFree(s), ev.o);
    }
    OwnOpOk(s.encls[id], op, ev.step, s.free == [], FirstFree(s), ev.o);
  }

  lemma EnclAfterOwnStep(s: State, ev: Event)
    requires EnclsOk(s) && Enabled(s, ev) && !Violates(s, ev) && (ev.OnEncl? || ev.Create?)
    ensures EnclOk(Apply(s, ev).encls[ev.e]) && LockOk(Apply(s, ev), ev.e, Apply(s, ev).encls[ev.e])
  {
    hide OpEnabled, EnclEnabled, StartEnabled, OpViolates, OpEffect, EnclEffect, StartEffect, OpOk;
    if ev.OnEncl? {
      assert LockOk(s, ev.e, s.encls[ev.e]);
      EnclStepKeepsEncl(s.encls[ev.e], ev.encl, s.free == [], FirstFree(s));
      LockAfterEnclStep(s.encls[ev.e], ev.encl, s.free == [], FirstFree(s));
    }
  }

  lemma EnclAfterStart(s: State, ev: Event)
    requires EnclsOk(s) && Enabled(s, ev) && !Violates(s, ev) && ev.Start?
    ensures EnclOk(Apply(s, ev).encls[ev.e]) && LockOk(Apply(s, ev), ev.e, Apply(s, ev).encls[ev.e])
  {
    hide OpEnabled, EnclEnabled, StartEnabled, OpViolates, OpEffect, EnclEffect, StartEffect, OpOk, EnclOk;
    assert LockOk(s, ev.e, s.encls[ev.e]);
    StartStepKeepsEncl(s.encls[ev.e], ev.start, s.free == [], FirstFree(s), ev.o);
    NewOpOk(s.encls[ev.e], ev.start, s.free == [], FirstFree(s), ev.o);
  }

  lemma LockAfterEnclStep(x: Encl, t: EnclStep, noneFree: bool, first: PageId)
    requires EnclEnabled(x, t, noneFree) && !EnclViolates(x, t)
    ensures EnclEffect(x, t, noneFree, first).x.lock == x.lock
  {
  }

  lemma OpsAfterStep(s: State, ev: Event)
    requires Inv(s) && Enabled(s, ev) && !Violates(s, ev)
    ensures OpsOk(Apply(s, ev))
  {
    hide OpEnabled, EnclEnabled, StartEnabled, OpViolates, OpEffect, EnclEffect, StartEffect, EnclOk, OpOk,
         Conserved, ListingsOk;
    var s' := Apply(s, ev);
    forall o | o in s'.ops
      ensures s'.ops[o].e in s'.encls && OpOk(s'.encls[s'.ops[o].e], s'.ops[o].op, o)
    {
      OpAfterStep(s, ev, o);
    }
  }

  lemma OpAfterStep(s: State, ev: Event, o: OpId)
    requires Inv(s) && Enabled(s, ev) && !Violates(s, ev) && o in Apply(s, ev).ops
    ensures var s' := Apply(s, ev); s'.ops[o].e in s'.encls && OpOk(s'.encls[s'.ops[o].e], s'.ops[o].op, o)
  {
    hide Enabled, Violates, Apply, Inv;
    if (ev.Start? || ev.OnOp?) && o == ev.o {
      OwnOpAfterStep(s, ev);
    } else {
      OtherOpAfterStep(s, ev, o);
    }
  }

  lemma OwnOpAfterStep(s: State, ev: Event)
    requires Inv(s) && Enabled(s, ev) && !Violates(s, ev) && (ev.Start? || ev.OnOp?)
    ensures var s', o := Apply(s, ev), ev.o;
            o in s'.ops ==> s'.ops[o].e in s'.encls && OpOk(s'.encls[s'.ops[o].e], s'.ops[o].op, o)
  {
    hide Apply, OpEnabled, EnclEnabled, StartEnabled, OpViolates, OpEffect, EnclEffect, StartEffect, EnclOk, OpOk,
         Conserved, ListingsOk;
    ApplyOwn(s, ev);
    if ev.Start? {
      NotLockedByNewOp(s, ev);
      NewOpOk(s.encls[ev.e], ev.start, s.free == [], FirstFree(s), ev.o);
    } else {
      OwnOpOk(s.encls[s.ops[ev.o].e], s.ops[ev.o].op, ev.step, s.free == [], FirstFree(s), ev.o);
    }
  }

  lemma OtherOpAfterStep(s: State, ev: Event, o: OpId)
    requires Inv(s) && Enabled(s, ev) && !Violates(s, ev) && o in Apply(s, ev).ops
    requires !((ev.Start? || ev.OnOp?) && o == ev.o)
    ensures var s' := Apply(s, ev); s'.ops[o].e in s'.encls && OpOk(s'.encls[s'.ops[o].e], s'.ops[o].op, o)
  {
    hide Apply, OpEnabled, EnclEnabled, StartEnabled, OpViolates, OpEffect, EnclEffect, StartEffect, EnclOk, OpOk,
         Conserved, ListingsOk;
    OpsWere(s, ev, o);
    var id := s.ops[o].e;
    if ev.Remove? {
      NoOpsWhenReleasing(s, ev.e, o);
    }
    ApplyElsewhere(s, ev, o, id);
    if ev.OnEncl? && ev.e == id {
      OpOkAfterEnclStep(s.encls[id], ev.encl, s.free == [], FirstFree(s), s.ops[o].op, o);
    } else if ev.Start? && ev.e == id {
      OpOkAfterStart(s.encls[id], ev.start, s.free == [], FirstFree(s), ev.o, s.ops[o].op, o);
    } else if ev.OnOp? && s.ops[ev.o].e == id {
      OtherOpOk(s.encls[id], s.ops[ev.o].op, ev.step, s.free == [], FirstFree(s), ev.o, s.ops[o].op, o);
    }
  }

  /** Only a start adds an operation. */
  lemma OpsWere(s: State, ev: Event, o: OpId)
    requires Enabled(s, ev) && !Violates(s, ev) && o in Apply(s, ev).ops && !((ev.Start? || ev.OnOp?) && o == ev.o)
    ensures o in s.ops
  {
    hide OpEnabled, OpViolates, OpEffect, EnclEnabled, EnclViolates, EnclEffect, StartEnabled, StartEffect, EffectOf;
  }

  lemma NotLockedByNewOp(s: State, ev: Event)
    requires EnclsOk(s) && Enabled(s, ev) && ev.Start?
    ensures s.encls[ev.e].lock != Some(ev.o)
  {
    assert LockOk(s, ev.e, s.encls[ev.e]);
  }

  lemma NoOpsWhenReleasing(s: State, id: EnclId, o: OpId)
    requires OpsOk(s) && id in s.encls && s.encls[id].phase.Releasing? && o in s.ops
    ensures s.ops[o].e != id
  {
  }

  /** Every step keeps the invariant, and nothing that must not happen can happen at it. */
  lemma StepKeepsInv(s: State, ev: Event)
    requires Inv(s) && Enabled(s, ev)
    ensures !Violates(s, ev) && Inv(Apply(s, ev))
  {
    NoViolation(s, ev);
    hide Enabled, Violates, Conserved, ListingsOk, EnclsOk, OpsOk, Apply, CountersAgree;
    ConservedAfterStep(s, ev);
    ListingsAfterStep(s, ev);
    EnclsAfterStep(s, ev);
    OpsAfterStep(s, ev);
  }

  // ----- Whole runs -----

  ghost predicate Run(s: State, events: seq<Event>, s': State)
    decreases |events|
  {
    if events == [] then s == s'
    else Enabled(s, events[0]) && !Violates(s, events[0]) && Run(Apply(s, events[0]), events[1..], s')
  }

  lemma {:induction false} CountOfFirstPages(n: nat, p: PageId)
    ensures multiset(seq(n, i => i))[p] == Bit(p < n)
  {
    if n > 0 {
      CountOfFirstPages(n - 1, p);
      assert seq(n, i => i) == seq(n - 1, i => i) + [n - 1];
    }
  }

  lemma BootKeepsInv(s: State)
    requires Boot(s)
    ensures Inv(s)
  {
    forall p: PageId, q
      ensures Multiplicity(s, q, p) == Bit(p < s.total && q == Free)
    {
      CountOfFirstPages(s.total, p);
    }
    forall p | 0 <= p < s.total
      ensures HasPlace(s, p)
    {
      assert LivesAt(s, p, Free);
    }
  }

  lemma {:induction false} RunKeepsInv(s: State, events: seq<Event>, s': State)
    requires Inv(s) && Run(s, events, s')
    ensures Inv(s') && s'.total == s.total
    decreases |events|
  {
    hide Enabled, Violates, Conserved, ListingsOk, EnclsOk, OpsOk, CountersAgree;
    if events != [] {
      StepKeepsInv(s, events[0]);
      TotalIsConstant(s, events[0]);
      RunKeepsInv(Apply(s, events[0]), events[1..], s');
    }
  }

  lemma TotalIsConstant(s: State, ev: Event)
    requires Enabled(s, ev) && !Violates(s, ev)
    ensures Apply(s, ev).total == s.total
  {
  }

  /** Main result. After any run, however the operations on any number of enclaves interleave: each EPC page is once
      in exactly one of the free list, a SECS, a VA page, an enclave page, the worker or a running operation; the
      counters agree with the free list; the next step loads no child while the SECS is out and evicts no SECS while a
      child is resident. */
  lemma SafeAtEveryStep(s0: State, events: seq<Event>, s: State)
    requires Boot(s0) && Run(s0, events, s)
    ensures Conserved(s) && s.total == s0.total
    ensures s.freePages == |s.free| && s.alloced - s.freed == s0.total - |s.free|
    ensures forall ev | Enabled(s, ev) :: !Violates(s, ev)
  {
    BootKeepsInv(s0);
    RunKeepsInv(s0, events, s);
    forall ev | Enabled(s, ev)
      ensures !Violates(s, ev)
    {
      NoViolation(s, ev);
    }
  }

  /** An operation can always go on, unless it waits for the lock of its enclave; and that lock is held by an operation
      that can go on. So no operation gets stuck. */
  lemma NeverStuck(s: State, o: OpId)
    requires Inv(s) && o in s.ops
    ensures s.ops[o].e in s.encls
    ensures var x := s.encls[s.ops[o].e];
            && ((s.ops[o].op.Isolated? ==> x.lock.None?) ==>
                  exists t :: Enabled(s, OnOp(o, t)) && !Violates(s, OnOp(o, t)))
            && (x.lock.Some? ==>
                  x.lock.value in s.ops && s.ops[x.lock.value].e == s.ops[o].e && s.ops[x.lock.value].op.Locks())
  {
    hide Violates, Conserved, ListingsOk, EnclOk;
    var id, op := s.ops[o].e, s.ops[o].op;
    var x := s.encls[id];
    assert OpOk(x, op, o) && LockOk(s, id, x);
    if op.Isolated? ==> x.lock.None? {
      var t := match op
        case VaHas(_) => VaEnd(true)
        case FaultAlloc(_, _) => if s.free == [] then FaultNoPage else FaultPage
        case FaultNeedsSecs(_, _, _) => if s.free == [] then FaultNoSecsPage else FaultSecsPage
        case FaultHasSecs(_, _, _, _) => FaultElduSecs(true)
        case FaultLoad(_, _, _) => FaultEldu(true, true)
        case GivingBack(_) => GiveOneBack
        case Accessing(_) => AccessEnd
        case Isolating(_, _) => SwapIsolated
        case Isolated(_) => SwapWrite(false)
        case Writing(cluster) => if cluster == [] then SwapEnd(true) else SwapEvict(true);
      assert Enabled(s, OnOp(o, t));
      NoViolation(s, OnOp(o, t));
    }
    if x.lock.Some? {
      var h := x.lock.value;
      assert OpOk(s.encls[s.ops[h].e], s.ops[h].op, h);
    }
  }

  /** The worker can always give up or, once the lock is free, give its page back and go on to the next request. */
  lemma WorkerNeverStuck(s: State, id: EnclId)
    requires Inv(s) && id in s.encls
    ensures s.encls[id].worker.NeedsPage? ==> Enabled(s, OnEncl(id, WorkerSkip))
    ensures s.encls[id].worker.HasPage? && s.encls[id].lock.None? ==> Enabled(s, OnEncl(id, WorkerRefuse))
  {
    hide Conserved, ListingsOk, OpsOk;
    assert EnclOk(s.encls[id]);
  }

  /** A release can always go on until the enclave is gone. */
  lemma ReleaseNeverStuck(s: State, id: EnclId)
    requires Inv(s) && id in s.encls && s.encls[id].phase.Releasing?
    ensures exists ev :: Enabled(s, ev) && (ev == Remove(id) || (ev.OnEncl? && ev.e == id))
  {
    hide Conserved, ListingsOk, OpsOk, EnclOk;
    var x := s.encls[id];
    if !NothingResident(x) {
      var a :| a in x.pages && x.pages[a].epc.Some?;
      assert Enabled(s, OnEncl(id, ReleaseChild(a)));
    } else if x.vaPages != [] {
      assert Enabled(s, OnEncl(id, ReleaseVa));
    } else if x.secs.Some? {
      assert Enabled(s, OnEncl(id, ReleaseSecs));
    } else {
      assert Enabled(s, Remove(id));
    }
  }

  /** The count of children covers the resident ones, and a resident child has its SECS. */
  lemma ChildNeedsSecs(s: State, id: EnclId, a: Addr)
    requires Inv(s) && id in s.encls
    ensures s.encls[id].secsChildCnt >= |ResidentSet(s.encls[id])|
    ensures !s.encls[id].phase.Releasing? && Resident(s.encls[id], a) ==> s.encls[id].secs.Some?
  {
    assert EnclOk(s.encls[id]);
  }

  /** The count is exact if and only if no EEXTEND has failed; otherwise the SECS is never taken for childless. */
  lemma CountIsExact(s: State, id: EnclId)
    requires Inv(s) && id in s.encls && !s.encls[id].phase.Releasing?
    ensures var x := s.encls[id];
            && (x.secsChildCnt == |ResidentSet(x)| <==> x.unmeasured == 0)
            && (x.secsChildCnt == 0 <==> NothingResident(x) && x.unmeasured == 0)
  {
    var x := s.encls[id];
    assert EnclOk(x);
    if NothingResident(x) {
      assert ResidentSet(x) == {};
    } else {
      var a :| a in x.pages && x.pages[a].epc.Some?;
      assert a in ResidentSet(x);
    }
  }

  /** What a failed EEXTEND leaves behind after the shortest run: an enclave without resident pages and a count of 1. */
  lemma FailedEextend(s0: State, a: Addr) returns (events: seq<Event>, s: State)
    requires Boot(s0) && s0.total >= 2
    ensures Run(s0, events, s) && 0 in s.encls
    ensures s.encls[0].secsChildCnt == 1 && ResidentSet(s.encls[0]) == {} && s.encls[0].phase.Running?
  {
    hide Inv, Enabled, Violates, Apply, EnclViolates;
    s := FirstEnclave(s0);
    events := [Create(0)];
    var x: Encl;
    events, s, x := LoneStep(s0, events, s, s.encls[0], CreateEnd(true));
    events, s, x := LoneStep(s0, events, s, x, Request(a));
    events, s, x := LoneStep(s0, events, s, x, WorkerTake);
    events, s, x := LoneStep(s0, events, s, x, WorkerAlloc);
    events, s, x := LoneStep(s0, events, s, x, WorkerEadd(false));
  }

  lemma FirstEnclave(s0: State) returns (s: State)
    requires Boot(s0) && s0.total >= 2
    ensures Run(s0, [Create(0)], s) && Inv(s)
    ensures s.encls == map[0 := NEW_ENCL.(secs := Some(s0.free[0]))] && s.ops == map[] && s.free != []
  {
    hide Inv;
    BootKeepsInv(s0);
    assert [Create(0)][1..] == [];
    StepKeepsInv(s0, Create(0));
    s := Apply(s0, Create(0));
  }

  /** A step of the only enclave. */
  lemma LoneStep(s0: State, events: seq<Event>, s: State, x: Encl, t: EnclStep)
    returns (events': seq<Event>, s': State, x': Encl)
    requires Run(s0, events, s) && Inv(s) && s.encls == map[0 := x] && s.ops == map[]
    requires EnclEnabled(x, t, s.free == [])
    ensures Run(s0, events', s') && Inv(s') && s'.encls == map[0 := x'] && s'.ops == map[]
    ensures !EnclViolates(x, t) && x' == EnclEffect(x, t, s.free == [], FirstFree(s)).x
    ensures EnclEffect(x, t, s.free == [], FirstFree(s)).pool.Keep? ==> s'.free == s.free
  {
    hide Inv, EnclEnabled, EnclViolates, EnclEffect;
    events', s' := OneMore(s0, events, s, OnEncl(0, t));
    x' := s'.encls[0];
  }

  lemma OneMore(s0: State, events: seq<Event>, s: State, ev: Event) returns (events': seq<Event>, s': State)
    requires Run(s0, events, s) && Inv(s) && Enabled(s, ev)
    ensures !Violates(s, ev) && s' == Apply(s, ev) && Run(s0, events', s') && Inv(s')
  {
    hide Inv, Enabled, Violates, Apply;
    StepKeepsInv(s, ev);
    events', s' := events + [ev], Apply(s, ev);
    RunOneMore(s0, events, s, ev);
  }

  lemma {:induction false} RunOneMore(s0: State, events: seq<Event>, s: State, ev: Event)
    requires Run(s0, events, s) && Enabled(s, ev) && !Violates(s, ev)
    ensures Run(s0, events + [ev], Apply(s, ev))
    decreases |events|
  {
    hide Enabled, Violates, Apply;
    if events == [] {
      assert [ev][1..] == [];
      assert [] + [ev] == [ev];
    } else {
      RunOneMore(Apply(s0, events[0]), events[1..], s, ev);
      assert (events + [ev])[1..] == events[1..] + [ev];
    }
  }

  /** A failed EEXTEND leaves the count above the number of resident children. */
  lemma CountCanBeHigh(x: Encl, first: PageId)
    requires EnclOk(x) && EnclEnabled(x, WorkerEadd(false), false)
    ensures var x' := EnclEffect(x, WorkerEadd(false), false, first).x;
            EnclOk(x') && x'.secsChildCnt > |ResidentSet(x')|
  {
    EnclStepKeepsEncl(x, WorkerEadd(false), false, first);
    assert EnclEffect(x, WorkerEadd(false), false, first).x.pages == x.pages;
    assert ResidentSet(EnclEffect(x, WorkerEadd(false), false, first).x) == ResidentSet(x);
  }

  /** Nothing leaks: when all enclaves are gone, all pages are free. */
  lemma AllPagesReturn(s: State)
    requires Inv(s) && s.encls == map[] && s.ops == map[]
    ensures forall p | 0 <= p < s.total :: multiset(s.free)[p] == 1
  {
    forall p | 0 <= p < s.total
      ensures multiset(s.free)[p] == 1
    {
      assert HasPlace(s, p);
      var here :| LivesAt(s, p, here);
      assert Multiplicity(s, here, p) == 1;
    }
  }

  // ----- Pages in use by a debugger -----

  ghost predicate InUse(s: State, o: OpId, p: PageId) {
    && o in s.ops && s.ops[o].op.Accessing? && s.ops[o].e in s.encls
    && var x, a := s.encls[s.ops[o].e], s.ops[o].op.addr;
       a in x.pages && x.pages[a] == EnclPage(Some(p), true)
  }

  lemma OpStepKeepsPage(x: Encl, op: Op, t: OpStep, noneFree: bool, first: PageId, o: OpId, a: Addr, k: Listing)
    requires OpEnabled(x, op, t, noneFree) && !OpViolates(x, op, t, noneFree) && OpOk(x, op, o)
    requires Shown(x, a, k) && Share(Some(op), o, a, k) && k.Accessed? && k.o != o
    ensures var x' := OpEffect(x, op, t, noneFree, first, o).x; a in x'.pages && x'.pages[a] == x.pages[a]
  {
    if t.SwapEvict? {
      FirstCounts(op.cluster, a);
    }
  }

  lemma EnclStepKeepsPage(x: Encl, t: EnclStep, noneFree: bool, first: PageId, a: Addr)
    requires EnclEnabled(x, t, noneFree) && !EnclViolates(x, t) && x.phase.Running? && Resident(x, a)
    ensures var x' := EnclEffect(x, t, noneFree, first).x; a in x'.pages && x'.pages[a] == x.pages[a]
  {
  }

  lemma StartStepKeepsPage(x: Encl, t: StartStep, noneFree: bool, first: PageId, o: OpId, a: Addr)
    requires StartEnabled(x, t, noneFree) && a in x.pages && x.pages[a].reserved
    ensures var x' := StartEffect(x, t, noneFree, first, o).x; a in x'.pages && x'.pages[a] == x.pages[a]
  {
  }

  /** What an access has reserved is listed as in use by it. */
  lemma AccessListing(s: State, o: OpId, p: PageId) returns (k: Listing)
    requires ListingsOk(s) && InUse(s, o, p)
    ensures ListedAs(s, s.ops[o].e, s.ops[o].op.addr, k) && k == Accessed(o)
  {
    var id, a := s.ops[o].e, s.ops[o].op.addr;
    assert HasListing(s, id, a);
    k :| ListedAs(s, id, a, k);
    assert Share(OpOn(s, o, id), o, a, k);
  }

  /** Whatever the other operations do, a page that a debugger's access has reserved stays where it is until that
      access ends. */
  lemma AccessKeepsPage(s: State, ev: Event, o: OpId, p: PageId)
    requires Inv(s) && Enabled(s, ev) && !Violates(s, ev) && InUse(s, o, p) && !(ev.OnOp? && ev.o == o)
    ensures InUse(Apply(s, ev), o, p) && Apply(s, ev).ops[o] == s.ops[o]
  {
    hide OpEnabled, OpViolates, OpEffect, EnclEnabled, EnclViolates, EnclEffect, StartEnabled, StartEffect,
         Conserved, EnclOk, OpOk, ListingsOk, Share, Shown, Apply;
    var id, a := s.ops[o].e, s.ops[o].op.addr;
    var k := AccessListing(s, o, p);
    ListedByOp(s, id, a, k);
    ApplyElsewhere(s, ev, o, id);
    if ev.OnEncl? && ev.e == id {
      EnclStepKeepsPage(s.encls[id], ev.encl, s.free == [], FirstFree(s), a);
    } else if ev.Start? && ev.e == id {
      StartStepKeepsPage(s.encls[id], ev.start, s.free == [], FirstFree(s), ev.o, a);
    } else if ev.OnOp? && s.ops[ev.o].e == id {
      assert Share(OpOn(s, ev.o, id), ev.o, a, k) && OpOk(s.encls[id], s.ops[ev.o].op, ev.o);
      OpStepKeepsPage(s.encls[id], s.ops[ev.o].op, ev.step, s.free == [], FirstFree(s), ev.o, a, k);
    }
  }

  lemma {:induction false} AccessedPageStays(s: State, events: seq<Event>, s': State, o: OpId, p: PageId)
    requires Inv(s) && Run(s, events, s') && InUse(s, o, p)
    requires forall i | 0 <= i < |events| :: !(events[i].OnOp? && events[i].o == o)
    ensures InUse(s', o, p)
    decreases |events|
  {
    hide Enabled, Violates, Conserved, ListingsOk, EnclsOk, OpsOk, CountersAgree, InUse, Apply;
    if events != [] {
      StepKeepsInv(s, events[0]);
      AccessKeepsPage(s, events[0], o, p);
      AccessedPageStays(Apply(s, events[0]), events[1..], s', o, p);
    }
  }
}
