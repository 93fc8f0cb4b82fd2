/** What the operations on EPC pages get done: each can run to its end, with the result it is called for. */
module EpcOperations {
  import opened Wrappers
  import opened Counting
  import opened EpcPaging

  function PoolAfter(free: seq<PageId>, pool: Pool): seq<PageId>
    requires pool.Take? ==> free != []
  {
    match pool
    case Keep => free
    case Take => free[1..]
    case Give(p) => [p] + free
  }

  ghost function OpsAfter(s: State, o: OpId, id: EnclId, op: Option<Op>): map<OpId, RunningOp> {
    if op.Some? then s.ops[o := RunningOp(id, op.value)] else s.ops - {o}
  }

  /** A step takes a page only where there is one. */
  lemma OpTakes(x: Encl, op: Op, t: OpStep, noneFree: bool, p: PageId, o: OpId)
    requires OpEnabled(x, op, t, noneFree) && !OpViolates(x, op, t, noneFree)
    ensures OpEffect(x, op, t, noneFree, p, o).pool.Take? ==> !noneFree
  {
  }

  lemma StartTakes(x: Encl, t: StartStep, noneFree: bool, p: PageId, o: OpId)
    requires StartEnabled(x, t, noneFree)
    ensures StartEffect(x, t, noneFree, p, o).pool.Take? ==> !noneFree
  {
  }

  lemma EnclTakes(x: Encl, t: EnclStep, noneFree: bool, p: PageId)
    requires EnclEnabled(x, t, noneFree) && !EnclViolates(x, t)
    ensures EnclEffect(x, t, noneFree, p).pool.Take? ==> !noneFree
  {
  }

  // ----- One step more, in terms of its effect -----

  lemma OpStepped(s0: State, before: seq<Event>, s: State, o: OpId, id: EnclId, x: Encl, op: Op, t: OpStep)
    returns (events: seq<Event>, s': State)
    requires Run(s0, before, s) && Inv(s) && id in s.encls && s.encls[id] == x
    requires o in s.ops && s.ops[o] == RunningOp(id, op) && OpEnabled(x, op, t, s.free == [])
    ensures Run(s0, events, s') && Inv(s') && !OpViolates(x, op, t, s.free == [])
    ensures var f := OpEffect(x, op, t, s.free == [], FirstFree(s), o);
            && s'.encls == s.encls[id := f.x] && s'.ops == OpsAfter(s, o, id, f.op)
            && (f.pool.Take? ==> s.free != []) && s'.free == PoolAfter(s.free, f.pool)
  {
    hide Inv, OpEnabled, OpViolates, OpEffect;
    events, s' := OneMore(s0, before, s, OnOp(o, t));
    OpTakes(x, op, t, s.free == [], FirstFree(s), o);
  }

  lemma Started(s0: State, before: seq<Event>, s: State, o: OpId, id: EnclId, x: Encl, t: StartStep)
    returns (events: seq<Event>, s': State)
    requires Run(s0, before, s) && Inv(s) && id in s.encls && s.encls[id] == x && o !in s.ops
    requires StartEnabled(x, t, s.free == [])
    ensures Run(s0, events, s') && Inv(s')
    ensures var f := StartEffect(x, t, s.free == [], FirstFree(s), o);
            && s'.encls == s.encls[id := f.x] && s'.ops == OpsAfter(s, o, id, f.op)
            && (f.pool.Take? ==> s.free != []) && s'.free == PoolAfter(s.free, f.pool)
  {
    hide Inv, StartEnabled, StartEffect;
    events, s' := OneMore(s0, before, s, Start(o, id, t));
    StartTakes(x, t, s.free == [], FirstFree(s), o);
  }

  lemma EnclStepped(s0: State, before: seq<Event>, s: State, id: EnclId, x: Encl, t: EnclStep)
    returns (events: seq<Event>, s': State)
    requires Run(s0, before, s) && Inv(s) && id in s.encls && s.encls[id] == x
    requires EnclEnabled(x, t, s.free == []) && (NeedsNoOps(t) ==> NoOps(s, id))
    ensures Run(s0, events, s') && Inv(s') && !EnclViolates(x, t)
    ensures var f := EnclEffect(x, t, s.free == [], FirstFree(s));
            && s'.encls == s.encls[id := f.x] && s'.ops == s.ops
            && (f.pool.Take? ==> s.free != []) && s'.free == PoolAfter(s.free, f.pool)
  {
    hide Inv, EnclEnabled, EnclViolates, EnclEffect;
    events, s' := OneMore(s0, before, s, OnEncl(id, t));
    EnclTakes(x, t, s.free == [], FirstFree(s));
  }

  // ----- Faults -----

  /** A fault may look for the page. */
  predicate Faultable(x: Encl, a: Addr) {
    Unlocked(x) && a in x.pages && !x.dead && x.initialized
  }

  /** The enclave with page `a` loaded into EPC page `p`. */
  function Loaded(x: Encl, a: Addr, p: PageId, reserve: bool): Encl
    requires a in x.pages
  {
    x.(pages := x.pages[a := EnclPage(Some(p), reserve || x.pages[a].reserved)], secsChildCnt := x.secsChildCnt + 1,
       loadList := x.loadList + [a])
  }

  /** The operations after a fault: one that reserves its page is a debugger's access to it. */
  ghost function AccessAfter(s: State, o: OpId, id: EnclId, a: Addr, reserve: bool): map<OpId, RunningOp> {
    if reserve then s.ops[o := RunningOp(id, Accessing(a))] else s.ops - {o}
  }

  /** A fault on a page that is not resident, with the SECS there and an EPC page free, loads the page. */
  lemma FaultLoadsPage(s: State, o: OpId, id: EnclId, a: Addr, reserve: bool)
    returns (events: seq<Event>, s': State)
    requires Inv(s) && id in s.encls && o !in s.ops && Faultable(s.encls[id], a) && s.encls[id].pages[a].epc.None?
    requires !s.encls[id].secsEvicted && s.free != [] && !(reserve && s.encls[id].pages[a].reserved)
    ensures Run(s, events, s') && Inv(s') && s'.free == s.free[1..]
    ensures s'.encls == s.encls[id := Loaded(s.encls[id], a, s.free[0], reserve)]
    ensures s'.ops == AccessAfter(s, o, id, a, reserve) && (!reserve ==> s'.ops == s.ops)
  {
    hide Inv, Run;
    EmptyRun(s);
    events, s' := Started(s, [], s, o, id, s.encls[id], FaultStart(a, reserve));
    events, s' := OpStepped(s, events, s', o, id, s'.encls[id], FaultAlloc(a, reserve), FaultPage);
    events, s' := LoadEnds(s, events, s', o, id, a, reserve, s.free[0]);
    assert s'.encls[id] == Loaded(s.encls[id], a, s.free[0], reserve);
  }

  lemma EmptyRun(s: State)
    ensures Run(s, [], s)
  {
  }

  /** The last step of a fault that goes well. */
  lemma LoadEnds(s0: State, before: seq<Event>, s: State, o: OpId, id: EnclId, a: Addr, reserve: bool, p: PageId)
    returns (events: seq<Event>, s': State)
    requires Run(s0, before, s) && Inv(s) && id in s.encls && o in s.ops
    requires s.ops[o] == RunningOp(id, FaultLoad(a, reserve, p))
    ensures Run(s0, events, s') && Inv(s') && s'.free == s.free && a in s.encls[id].pages
    ensures s'.encls == s.encls[id := Loaded(s.encls[id], a, p, reserve).(lock := None)]
    ensures s'.ops == AccessAfter(s, o, id, a, reserve)
  {
    hide Inv, Run;
    events, s' := OpStepped(s0, before, s, o, id, s.encls[id], FaultLoad(a, reserve, p), FaultEldu(true, true));
  }

  /** With the SECS out it is loaded first, for which a second EPC page is needed. */
  lemma FaultLoadsSecsToo(s: State, o: OpId, id: EnclId, a: Addr, reserve: bool)
    returns (events: seq<Event>, s': State)
    requires Inv(s) && id in s.encls && o !in s.ops && Faultable(s.encls[id], a) && s.encls[id].pages[a].epc.None?
    requires s.encls[id].secsEvicted && |s.free| >= 2 && !(reserve && s.encls[id].pages[a].reserved)
    ensures Run(s, events, s') && Inv(s') && s'.free == s.free[2..]
    ensures s'.encls == s.encls[id := Loaded(s.encls[id], a, s.free[0], reserve)
                                      .(secs := Some(s.free[1]), secsEvicted := false)]
    ensures s'.ops == AccessAfter(s, o, id, a, reserve) && (!reserve ==> s'.ops == s.ops)
  {
    hide Inv, Run;
    EmptyRun(s);
    events, s' := Started(s, [], s, o, id, s.encls[id], FaultStart(a, reserve));
    events, s' := OpStepped(s, events, s', o, id, s'.encls[id], FaultAlloc(a, reserve), FaultPage);
    events, s' := SecsLoaded(s, events, s', o, id, a, reserve, s.free[0]);
    events, s' := LoadEnds(s, events, s', o, id, a, reserve, s.free[0]);
    assert s.free[1..][1..] == s.free[2..];
  }

  lemma SecsLoaded(s0: State, before: seq<Event>, s: State, o: OpId, id: EnclId, a: Addr, reserve: bool, p: PageId)
    returns (events: seq<Event>, s': State)
    requires Run(s0, before, s) && Inv(s) && id in s.encls && o in s.ops && s.free != []
    requires s.ops[o] == RunningOp(id, FaultNeedsSecs(a, reserve, p))
    ensures Run(s0, events, s') && Inv(s') && s'.free == s.free[1..]
    ensures s'.encls == s.encls[id := s.encls[id].(secs := Some(s.free[0]), secsEvicted := false)]
    ensures s'.ops == s.ops[o := RunningOp(id, FaultLoad(a, reserve, p))]
  {
    hide Inv, Run;
    var q := s.free[0];
    events, s' := OpStepped(s0, before, s, o, id, s.encls[id], FaultNeedsSecs(a, reserve, p), FaultSecsPage);
    events, s' := OpStepped(s0, events, s', o, id, s.encls[id], FaultHasSecs(a, reserve, p, q), FaultElduSecs(true));
  }

  /** A fault on a resident page changes nothing, but that it may reserve the page for a debugger. */
  lemma FaultOnResident(s: State, o: OpId, id: EnclId, a: Addr, reserve: bool) returns (events: seq<Event>, s': State)
    requires Inv(s) && id in s.encls && o !in s.ops && Faultable(s.encls[id], a) && Resident(s.encls[id], a)
    requires !(reserve && s.encls[id].pages[a].reserved)
    ensures Run(s, events, s') && Inv(s') && s'.free == s.free && s'.ops == AccessAfter(s, o, id, a, reserve)
    ensures var x := s.encls[id];
            s'.encls == if reserve then s.encls[id := x.(pages := x.pages[a := x.pages[a].(reserved := true)])]
                        else s.encls
  {
    hide Inv, Run;
    EmptyRun(s);
    events, s' := Started(s, [], s, o, id, s.encls[id], FaultStart(a, reserve));
  }

  /** A fault whose ELDU fails gives its EPC page back, and the page stays out. */
  lemma FailedFaultGivesBack(s: State, o: OpId, id: EnclId, a: Addr, reserve: bool)
    returns (events: seq<Event>, s': State)
    requires Inv(s) && id in s.encls && o !in s.ops && Faultable(s.encls[id], a) && s.encls[id].pages[a].epc.None?
    requires !s.encls[id].secsEvicted && s.free != [] && !(reserve && s.encls[id].pages[a].reserved)
    ensures Run(s, events, s') && Inv(s') && s'.free == s.free && s'.encls == s.encls && s'.ops == s.ops
  {
    hide Inv, Run;
    EmptyRun(s);
    var p := s.free[0];
    events, s' := Started(s, [], s, o, id, s.encls[id], FaultStart(a, reserve));
    events, s' := OpStepped(s, events, s', o, id, s'.encls[id], FaultAlloc(a, reserve), FaultPage);
    events, s' := OpStepped(s, events, s', o, id, s'.encls[id], FaultLoad(a, reserve, p), FaultEldu(false, false));
    events, s' := OpStepped(s, events, s', o, id, s'.encls[id], GivingBack([p]), GiveOneBack);
    assert [p] + s.free[1..] == s.free;
    assert s'.encls[id] == s.encls[id];
  }

  /** The end of a debugger's access makes the page an ordinary one again. */
  lemma AccessEnds(s: State, o: OpId, id: EnclId, a: Addr) returns (events: seq<Event>, s': State)
    requires Inv(s) && id in s.encls && o in s.ops && s.ops[o] == RunningOp(id, Accessing(a))
    ensures Run(s, events, s') && Inv(s') && s'.free == s.free && s'.ops == s.ops - {o} && Resident(s.encls[id], a)
    ensures var x := s.encls[id];
            s'.encls == s.encls[id := x.(pages := x.pages[a := x.pages[a].(reserved := false)])]
  {
    hide Inv, Run;
    EmptyRun(s);
    events, s' := OpStepped(s, [], s, o, id, s.encls[id], Accessing(a), AccessEnd);
  }

  // ----- Adding a page -----

  /** A request to add a page, processed at once: the page is resident, listed and counted. */
  lemma PageIsAdded(s: State, id: EnclId, a: Addr) returns (events: seq<Event>, s': State)
    requires Inv(s) && id in s.encls && s.free != []
    requires var x := s.encls[id];
             Unlocked(x) && !x.initialized && !x.dead && a !in x.pages && x.requests == [] && x.worker.WorkerIdle?
    ensures Run(s, events, s') && Inv(s') && s'.free == s.free[1..] && s'.ops == s.ops
    ensures var x := s.encls[id];
            s'.encls == s.encls[id := x.(pages := x.pages[a := EnclPage(Some(s.free[0]), false)],
                                         loadList := x.loadList + [a], secsChildCnt := x.secsChildCnt + 1)]
  {
    hide Inv, Run;
    EmptyRun(s);
    var x := s.encls[id];
    events, s' := EnclStepped(s, [], s, id, x, Request(a));
    events, s' := EnclStepped(s, events, s', id, s'.encls[id], WorkerTake);
    events, s' := EnclStepped(s, events, s', id, s'.encls[id], WorkerAlloc);
    events, s' := EnclStepped(s, events, s', id, s'.encls[id], WorkerEadd(true));
    assert x.requests + [a] == [a] && [a][1..] == [];
    assert x.pages[a := EnclPage(None, false)][a := EnclPage(Some(s.free[0]), false)]
        == x.pages[a := EnclPage(Some(s.free[0]), false)];
  }

  // ----- The life of an enclave -----

  /** An enclave is created with a SECS and nothing else, then initialized, and killed for good. */
  lemma EnclaveStarts(s: State, id: EnclId) returns (events: seq<Event>, s': State)
    requires Inv(s) && id !in s.encls && NoOps(s, id) && s.free != []
    ensures Run(s, events, s') && Inv(s') && s'.free == s.free[1..] && s'.ops == s.ops
    ensures s'.encls == s.encls[id := NEW_ENCL.(secs := Some(s.free[0]), phase := Running, initialized := true)]
  {
    hide Inv, Run;
    EmptyRun(s);
    events, s' := OneMore(s, [], s, Create(id));
    events, s' := EnclStepped(s, events, s', id, s'.encls[id], CreateEnd(true));
    events, s' := EnclStepped(s, events, s', id, s'.encls[id], Init);
  }

  lemma EnclaveIsKilled(s: State, id: EnclId) returns (events: seq<Event>, s': State)
    requires Inv(s) && id in s.encls && Unlocked(s.encls[id])
    ensures Run(s, events, s') && Inv(s') && s'.free == s.free && s'.ops == s.ops
    ensures s'.encls == s.encls[id := s.encls[id].(dead := true)]
  {
    hide Inv, Run;
    EmptyRun(s);
    events, s' := EnclStepped(s, [], s, id, s.encls[id], Kill);
  }

  /** A VA page is allocated and becomes the first on the enclave's list. */
  lemma VaPageIsAdded(s: State, o: OpId, id: EnclId) returns (events: seq<Event>, s': State)
    requires Inv(s) && id in s.encls && o !in s.ops && !s.encls[id].phase.Releasing? && s.free != []
    ensures Run(s, events, s') && Inv(s') && s'.free == s.free[1..] && s'.ops == s.ops
    ensures s'.encls == s.encls[id := s.encls[id].(vaPages := [s.free[0]] + s.encls[id].vaPages)]
  {
    hide Inv, Run;
    EmptyRun(s);
    var p := s.free[0];
    events, s' := Started(s, [], s, o, id, s.encls[id], VaAlloc);
    events, s' := OpStepped(s, events, s', o, id, s.encls[id], VaHas(p), VaEnd(true));
  }

  // ----- Swapping -----

  /** The same pages, with those of `cluster` put to `page(b)`. */
  ghost predicate PagesWith(x: Encl, x': Encl, cluster: seq<Addr>, page: EnclPage -> EnclPage) {
    && x'.pages.Keys == x.pages.Keys
    && forall b | b in x.pages :: x'.pages[b] == if b in cluster then page(x.pages[b]) else x.pages[b]
  }

  function Reserved(page: EnclPage): EnclPage {
    page.(reserved := true)
  }

  function Evicted(page: EnclPage): EnclPage {
    EnclPage(None, false)
  }

  /** Old pages at the head of the load list that no access has reserved. */
  ghost predicate Isolatable(x: Encl, n: nat) {
    && n <= |x.loadList| && !x.dead
    && (forall i | 0 <= i < n :: x.loadList[i] in x.pages && !x.pages[x.loadList[i]].reserved)
    && forall i, j | 0 <= i < j < n :: x.loadList[i] != x.loadList[j]
  }

  lemma FirstIsolated(x: Encl, x1: Encl, n: nat)
    requires Isolatable(x, n) && n > 0
    requires var a := x.loadList[0];
             x1 == x.(pages := x.pages[a := x.pages[a].(reserved := true)], loadList := x.loadList[1..])
    ensures Isolatable(x1, n - 1)
    ensures forall x' | PagesWith(x1, x', x1.loadList[..n - 1], Reserved) :: PagesWith(x, x', x.loadList[..n], Reserved)
  {
    assert x.loadList[..n] == [x.loadList[0]] + x1.loadList[..n - 1];
  }

  /** The scan isolates `n` such pages. */
  lemma {:induction false} ScanIsolates(
    s0: State, before: seq<Event>, s: State, o: OpId, id: EnclId, cluster: seq<Addr>, budget: nat, n: nat)
    returns (events: seq<Event>, s': State)
    requires Run(s0, before, s) && Inv(s) && id in s.encls && o in s.ops && n <= budget
    requires s.ops[o] == RunningOp(id, Isolating(cluster, budget)) && Isolatable(s.encls[id], n)
    ensures Run(s0, events, s') && Inv(s') && s'.free == s.free && n <= |s.encls[id].loadList|
    ensures s'.ops == s.ops[o := RunningOp(id, Isolating(cluster + s.encls[id].loadList[..n], budget - n))]
    ensures id in s'.encls && s'.encls == s.encls[id := s'.encls[id]]
    ensures var x, x' := s.encls[id], s'.encls[id];
            && x' == x.(pages := x'.pages, loadList := x.loadList[n..])
            && PagesWith(x, x', x.loadList[..n], Reserved)
    decreases n
  {
    hide Inv, Run, PagesWith, Isolatable;
    var x := s.encls[id];
    if n == 0 {
      events, s' := before, s;
      assert x.loadList[..0] == [] && x.loadList[0..] == x.loadList;
      NothingChanged(x, Reserved);
      assert cluster + [] == cluster;
    } else {
      IsolatableFirst(x, n);
      events, s' := OpStepped(s0, before, s, o, id, x, Isolating(cluster, budget), SwapScan(false));
      var x1 := s'.encls[id];
      FirstIsolated(x, x1, n);
      assert x.loadList[..n] == [x.loadList[0]] + x1.loadList[..n - 1];
      assert cluster + x.loadList[..n] == cluster + [x.loadList[0]] + x1.loadList[..n - 1];
      assert x1.loadList[n - 1..] == x.loadList[n..];
      events, s' := ScanIsolates(s0, events, s', o, id, cluster + [x.loadList[0]], budget - 1, n - 1);
    }
  }

  lemma IsolatableFirst(x: Encl, n: nat)
    requires Isolatable(x, n) && n > 0
    ensures x.loadList != [] && !x.dead && x.loadList[0] in x.pages && !x.pages[x.loadList[0]].reserved
  {
  }

  lemma NothingChanged(x: Encl, page: EnclPage -> EnclPage)
    ensures PagesWith(x, x, [], page)
  {
  }

  lemma FirstEvicted(x: Encl, x1: Encl, cluster: seq<Addr>)
    requires cluster != [] && cluster[0] in x.pages && x1.pages == x.pages[cluster[0] := EnclPage(None, false)]
    ensures forall x' | PagesWith(x1, x', cluster[1..], Evicted) :: PagesWith(x, x', cluster, Evicted)
  {
    assert cluster == [cluster[0]] + cluster[1..];
  }

  /** Every page of the cluster is written out and its EPC page freed. */
  lemma {:induction false} ClusterIsEvicted(
    s0: State, before: seq<Event>, s: State, o: OpId, id: EnclId, cluster: seq<Addr>)
    returns (events: seq<Event>, s': State)
    requires Run(s0, before, s) && Inv(s) && id in s.encls && o in s.ops
    requires s.ops[o] == RunningOp(id, Writing(cluster))
    ensures Run(s0, events, s') && Inv(s') && |s'.free| == |s.free| + |cluster|
    ensures s'.ops == s.ops[o := RunningOp(id, Writing([]))]
    ensures id in s'.encls && s'.encls == s.encls[id := s'.encls[id]]
    ensures var x, x' := s.encls[id], s'.encls[id];
            && x.secsChildCnt >= |cluster|
            && x' == x.(pages := x'.pages, secsChildCnt := x.secsChildCnt - |cluster|)
            && PagesWith(x, x', cluster, Evicted)
    decreases |cluster|
  {
    hide Inv, Run, PagesWith;
    var x := s.encls[id];
    if cluster == [] {
      events, s' := before, s;
      NothingChanged(x, Evicted);
    } else {
      events, s' := OpStepped(s0, before, s, o, id, x, Writing(cluster), SwapEvict(true));
      FirstEvicted(x, s'.encls[id], cluster);
      events, s' := ClusterIsEvicted(s0, events, s', o, id, cluster[1..]);
    }
  }

  /** How many pages a swap takes at a time. */
  function ClusterSize(x: Encl): nat {
    if |x.loadList| <= 16 then |x.loadList| else 16
  }

  lemma ListedOnce(s: State, id: EnclId)
    requires Inv(s) && id in s.encls
    ensures var x := s.encls[id];
            && (forall i | 0 <= i < |x.loadList| :: Resident(x, x.loadList[i]))
            && forall i, j | 0 <= i < j < |x.loadList| :: x.loadList[i] != x.loadList[j]
  {
    var q := s.encls[id].loadList;
    forall i | 0 <= i < |q|
      ensures Resident(s.encls[id], q[i]) && multiset(q)[q[i]] == 1
    {
      assert HasListing(s, id, q[i]);
      assert q[i] in multiset(q);
    }
    forall i, j | 0 <= i < j < |q|
      ensures q[i] != q[j]
    {
      TwiceInList(q, i, j);
    }
  }

  lemma TwiceInList(q: seq<Addr>, i: nat, j: nat)
    requires i < j < |q|
    ensures q[i] == q[j] ==> multiset(q)[q[i]] >= 2
  {
    assert q == q[..j] + [q[j]] + q[j + 1..];
    assert q[..j][i] in multiset(q[..j]);
  }

  /** The first half of a swap, up to where it writes the pages out. */
  lemma ClusterIsIsolated(s: State, o: OpId, id: EnclId, n: nat) returns (events: seq<Event>, s': State)
    requires Inv(s) && id in s.encls && o !in s.ops && Unlocked(s.encls[id]) && s.encls[id].loadList != []
    requires Isolatable(s.encls[id], n) && n == ClusterSize(s.encls[id])
    ensures Run(s, events, s') && Inv(s') && s'.free == s.free && id in s'.encls && n <= |s.encls[id].loadList|
    ensures s'.encls == s.encls[id := s'.encls[id]]
    ensures s'.ops == s.ops[o := RunningOp(id, Writing(s.encls[id].loadList[..n]))]
    ensures var x, x' := s.encls[id], s'.encls[id];
            && x' == x.(pages := x'.pages, loadList := x.loadList[n..], lock := Some(o))
            && PagesWith(x, x', x.loadList[..n], Reserved)
  {
    hide Inv, Run, PagesWith, Isolatable;
    var x := s.encls[id];
    EmptyRun(s);
    events, s' := Started(s, [], s, o, id, x, SwapStart);
    IsolatableLocked(x, s'.encls[id], n);
    events, s' := ScanIsolates(s, events, s', o, id, [], SWAP_CLUSTER_MAX, n);
    var cluster := x.loadList[..n];
    assert [] + cluster == cluster;
    var x1 := s'.encls[id];
    events, s' := WritingStarts(s, events, s', o, id, cluster, SWAP_CLUSTER_MAX - n);
    SamePages(x.(lock := Some(o)), x1, x, s'.encls[id], cluster);
  }

  /** The lock is dropped after the scan and taken again for the writing. */
  lemma WritingStarts(
    s0: State, before: seq<Event>, s: State, o: OpId, id: EnclId, cluster: seq<Addr>, budget: nat)
    returns (events: seq<Event>, s': State)
    requires Run(s0, before, s) && Inv(s) && id in s.encls && o in s.ops && cluster != []
    requires s.ops[o] == RunningOp(id, Isolating(cluster, budget))
    ensures Run(s0, events, s') && Inv(s') && s'.free == s.free
    ensures s'.encls == s.encls[id := s.encls[id].(lock := Some(o))]
    ensures s'.ops == s.ops[o := RunningOp(id, Writing(cluster))]
  {
    hide Inv, Run;
    events, s' := OpStepped(s0, before, s, o, id, s.encls[id], Isolating(cluster, budget), SwapIsolated);
    events, s' := OpStepped(s0, events, s', o, id, s'.encls[id], Isolated(cluster), SwapWrite(false));
  }

  lemma SamePages(x: Encl, x1: Encl, y: Encl, y1: Encl, cluster: seq<Addr>)
    requires PagesWith(x, x1, cluster, Reserved) && y.pages == x.pages && y1.pages == x1.pages
    ensures PagesWith(y, y1, cluster, Reserved)
  {
  }

  /** A swap of an enclave all of whose pages are old and not reserved takes the first sixteen of them, or all there
      are, out of the EPC, and the SECS with the last one. */
  lemma SwapFreesPages(s: State, o: OpId, id: EnclId) returns (events: seq<Event>, s': State)
    requires Inv(s) && id in s.encls && o !in s.ops && Unlocked(s.encls[id]) && !s.encls[id].dead
    requires s.encls[id].loadList != []
    requires var x := s.encls[id];
             forall i | 0 <= i < ClusterSize(x) :: x.loadList[i] in x.pages && !x.pages[x.loadList[i]].reserved
    ensures Run(s, events, s') && Inv(s') && s'.ops == s.ops && id in s'.encls
    ensures s'.encls == s.encls[id := s'.encls[id]]
    ensures var x, x', n := s.encls[id], s'.encls[id], ClusterSize(s.encls[id]);
            && PagesWith(x, x', x.loadList[..n], Evicted) && x'.loadList == x.loadList[n..]
            && x.secsChildCnt >= n && x'.secsChildCnt == x.secsChildCnt - n && x'.lock.None? && !x'.dead
            && var last := x'.secsChildCnt == 0 && x.initialized;
               && x'.secs == (if last then None else x.secs) && x'.secsEvicted == (last || x.secsEvicted)
               && |s'.free| == |s.free| + n + Bit(last)
  {
    hide Inv, Run, PagesWith, Isolatable;
    var x, n := s.encls[id], ClusterSize(s.encls[id]);
    ListedOnce(s, id);
    CanIsolate(x, n);
    events, s' := ClusterIsIsolated(s, o, id, n);
    var x1, cluster := s'.encls[id], x.loadList[..n];
    events, s' := ClusterIsEvicted(s, events, s', o, id, cluster);
    var x2 := s'.encls[id];
    events, s' := OpStepped(s, events, s', o, id, x2, Writing([]), SwapEnd(true));
    ReservedThenEvicted(x, x1, x2, s'.encls[id], cluster);
  }

  lemma CanIsolate(x: Encl, n: nat)
    requires n <= |x.loadList| && !x.dead
    requires forall i | 0 <= i < n :: x.loadList[i] in x.pages && !x.pages[x.loadList[i]].reserved
    requires forall i, j | 0 <= i < j < |x.loadList| :: x.loadList[i] != x.loadList[j]
    ensures Isolatable(x, n)
  {
  }

  lemma IsolatableLocked(x: Encl, x': Encl, n: nat)
    requires Isolatable(x, n) && x'.loadList == x.loadList && x'.pages == x.pages && x'.dead == x.dead
    ensures Isolatable(x', n)
  {
  }

  lemma ReservedThenEvicted(x: Encl, x1: Encl, x2: Encl, x': Encl, cluster: seq<Addr>)
    requires PagesWith(x, x1, cluster, Reserved) && PagesWith(x1, x2, cluster, Evicted) && x'.pages == x2.pages
    ensures PagesWith(x, x', cluster, Evicted)
  {
  }

  // ----- Release -----

  /** Page `p` is somewhere in the enclave. */
  ghost predicate Owns(x: Encl, p: PageId) {
    x.secs == Some(p) || p in x.vaPages || exists a :: a in x.pages && x.pages[a].epc == Some(p)
  }

  /** How many pages the enclave has. */
  function PagesLeft(x: Encl): nat {
    |ResidentSet(x)| + |x.vaPages| + Bit(x.secs.Some?)
  }

  /** A step of a release that gives back one page. */
  ghost predicate GivesOne(x: Encl, t: EnclStep, noneFree: bool, first: PageId)
    requires EnclEnabled(x, t, noneFree) && !EnclViolates(x, t)
  {
    var f := EnclEffect(x, t, noneFree, first);
    && f.pool.Give? && f.x.phase.Releasing? && PagesLeft(f.x) + 1 == PagesLeft(x)
    && forall p | Owns(x, p) :: p == f.pool.page || Owns(f.x, p)
  }

  lemma ReleaseOneChild(x: Encl, a: Addr, noneFree: bool, first: PageId)
    requires x.phase.Releasing? && a in ResidentSet(x)
    ensures EnclEnabled(x, ReleaseChild(a), noneFree) && GivesOne(x, ReleaseChild(a), noneFree, first)
  {
    var x' := EnclEffect(x, ReleaseChild(a), noneFree, first).x;
    assert ResidentSet(x) == ResidentSet(x') + {a};
    forall p | Owns(x, p)
      ensures p == x.pages[a].epc.value || Owns(x', p)
    {
      if b :| b in x.pages && x.pages[b].epc == Some(p) && b != a {
        assert x'.pages[b] == x.pages[b];
      }
    }
  }

  lemma ReleaseOneOther(x: Encl, t: EnclStep, noneFree: bool, first: PageId)
    requires EnclEnabled(x, t, noneFree) && (t.ReleaseVa? || t.ReleaseSecs?)
    ensures GivesOne(x, t, noneFree, first)
  {
    var x' := EnclEffect(x, t, noneFree, first).x;
    assert ResidentSet(x') == ResidentSet(x);
    assert x.vaPages != [] ==> x.vaPages == [x.vaPages[0]] + x.vaPages[1..];
  }

  lemma ReleaseOne(x: Encl, noneFree: bool, first: PageId) returns (t: EnclStep)
    requires x.phase.Releasing? && PagesLeft(x) > 0
    ensures EnclEnabled(x, t, noneFree) && !EnclViolates(x, t) && !NeedsNoOps(t) && GivesOne(x, t, noneFree, first)
  {
    hide GivesOne;
    if ResidentSet(x) != {} {
      var a :| a in ResidentSet(x);
      t := ReleaseChild(a);
      ReleaseOneChild(x, a, noneFree, first);
    } else {
      NoneResident(x);
      t := if x.vaPages != [] then ReleaseVa else ReleaseSecs;
      ReleaseOneOther(x, t, noneFree, first);
    }
  }

  lemma NoneResident(x: Encl)
    requires ResidentSet(x) == {}
    ensures NothingResident(x)
  {
    forall a | a in x.pages
      ensures x.pages[a].epc.None?
    {
      assert a !in ResidentSet(x);
    }
  }

  /** A release gives back every page of the enclave, and then the enclave is gone. */
  lemma {:induction false} ReleaseFreesAll(s0: State, before: seq<Event>, s: State, id: EnclId)
    returns (events: seq<Event>, s': State)
    requires Run(s0, before, s) && Inv(s) && id in s.encls && s.encls[id].phase.Releasing?
    ensures Run(s0, events, s') && Inv(s') && s'.encls == s.encls - {id} && s'.ops == s.ops
    ensures |s'.free| == |s.free| + PagesLeft(s.encls[id])
    ensures forall p | p in s.free || Owns(s.encls[id], p) :: p in s'.free
    decreases PagesLeft(s.encls[id])
  {
    hide Inv, Run, Owns, PagesLeft;
    var x := s.encls[id];
    if PagesLeft(x) == 0 {
      NothingLeft(x);
      events, s' := OneMore(s0, before, s, Remove(id));
    } else {
      hide EnclEffect, EnclEnabled, EnclViolates;
      var t := ReleaseOne(x, s.free == [], FirstFree(s));
      var s1;
      events, s1 := EnclStepped(s0, before, s, id, x, t);
      events, s' := ReleaseFreesAll(s0, events, s1, id);
      assert s1.encls - {id} == s.encls - {id};
    }
  }

  lemma NothingLeft(x: Encl)
    requires PagesLeft(x) == 0
    ensures NothingResident(x) && x.vaPages == [] && x.secs.None? && forall p :: !Owns(x, p)
  {
    NoneResident(x);
  }

  /** The same from the moment the last reference to the enclave is gone. */
  lemma EnclaveIsReleased(s: State, id: EnclId) returns (events: seq<Event>, s': State)
    requires Inv(s) && id in s.encls && NoOps(s, id)
    requires var x := s.encls[id]; Unlocked(x) && x.requests == [] && x.worker.WorkerIdle?
    ensures Run(s, events, s') && Inv(s') && s'.encls == s.encls - {id} && s'.ops == s.ops
    ensures |s'.free| == |s.free| + PagesLeft(s.encls[id])
    ensures forall p | p in s.free || Owns(s.encls[id], p) :: p in s'.free
  {
    hide Inv, Run;
    EmptyRun(s);
    var s1;
    events, s1 := EnclStepped(s, [], s, id, s.encls[id], ReleaseStart);
    assert ResidentSet(s1.encls[id]) == ResidentSet(s.encls[id]);
    assert forall p | Owns(s.encls[id], p) :: Owns(s1.encls[id], p);
    events, s' := ReleaseFreesAll(s, events, s1, id);
    assert s1.encls - {id} == s.encls - {id};
  }
}
