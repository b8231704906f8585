/**
 The EDU manager and all the threads that use it, interleaved: one step per latch section, plus the
 two posts the source makes right after one. A ticket is the argument of one `startEDU` call.
 */
module EduSystem {
  import opened EduManager

  /** Where the main loop of an EDU's thread stands; the flag of `returnEDU` is its `isForced`. */
  datatype Pc =
    | AtTop
    | InWait
    | TimedOut
    | Popped(ticket: Ticket)
    | Ready(ticket: Ticket)
    | InEntry
    | Leaving
    | Returning(force: bool)
    | Looked(force: bool, kind: EduType)
    | Sizing
    | MustDestroy(force: bool)
    | MayPool
    | Exited

  /** Where one call of `startEDU` stands. */
  datatype Call =
    | Asked(kind: EduType)
    | Admitted(kind: EduType)
    | MustCreate(kind: EduType)
    | MayCreate(kind: EduType)
    | Started(edu: EduId)
    | Refused(code: Code)

  /**
   `ran` is where each ticket reached its entry function; `lost` are the tickets that have been
   pending in an EDU which was forced while its thread stood behind a timed-out wait.
   */
  datatype State = State(
    m: Manager,
    threads: map<EduId, Pc>,
    calls: map<Ticket, Call>,
    maxPool: nat,
    history: History)

  datatype History = History(ran: map<Ticket, EduId>, lost: set<Ticket>)

  datatype Step =
    | EnterWait(id: EduId)
    | PopEvent(id: EduId)
    | TimeOut(id: EduId)
    | CheckForced(id: EduId)
    | Prepare(id: EduId)
    | CallEntry(id: EduId)
    | EntryActivates(id: EduId)
    | EntryWaits(id: EduId)
    | EntryReturns(id: EduId)
    | WaitAgain(id: EduId)
    | LookUp(id: EduId)
    | CheckDown(id: EduId)
    | Decide(id: EduId)
    | Destroy(id: EduId)
    | Deactivate(id: EduId)
    | Ask(ticket: Ticket, kind: EduType)
    | CheckQuiesced(ticket: Ticket)
    | TakeOrCreate(ticket: Ticket, id: EduId)
    | CheckAgain(ticket: Ticket, memory: bool)
    | Create(ticket: Ticket, threadStarts: bool)
    | Quiesce(b: bool)
    | ShutDown
    | ForceAll
    | ForceOne(id: EduId)

  /** The control block of an EDU the manager knows. */
  predicate Known(m: Manager, id: EduId) {
    id in m.run || id in m.idle
  }

  function Block(m: Manager, id: EduId): ControlBlock
    requires Known(m, id)
  {
    if id in m.run then m.run[id] else m.idle[id]
  }

  function WithBlock(m: Manager, id: EduId, cb: ControlBlock): Manager
    requires Known(m, id)
  {
    if id in m.run then m.(run := m.run[id := cb]) else m.(idle := m.idle[id := cb])
  }

  predicate AtPc(s: State, id: EduId, pc: Pc) {
    id in s.threads && s.threads[id] == pc
  }

  /** No idle EDU of status IDLE can be taken for this type. */
  predicate NothingToTake(m: Manager, kind: EduType) {
    !IsPoolable(kind) || forall k :: k in m.idle ==> m.idle[k].status != IDLE
  }

  predicate Enabled(s: State, step: Step) {
    match step
    case EnterWait(id) => AtPc(s, id, AtTop) && Known(s.m, id)
    case PopEvent(id) => AtPc(s, id, InWait) && Known(s.m, id) && Block(s.m, id).events != []
    case TimeOut(id) => AtPc(s, id, InWait) && Known(s.m, id)
    case CheckForced(id) => AtPc(s, id, TimedOut) && Known(s.m, id)
    case Prepare(id) => id in s.threads && s.threads[id].Popped?
    case CallEntry(id) => id in s.threads && s.threads[id].Ready?
    case EntryActivates(id) => AtPc(s, id, InEntry)
    case EntryWaits(id) => AtPc(s, id, InEntry)
    case EntryReturns(id) => AtPc(s, id, InEntry)
    case WaitAgain(id) => AtPc(s, id, Leaving)
    case LookUp(id) => id in s.threads && s.threads[id].Returning?
    case CheckDown(id) => id in s.threads && s.threads[id].Looked?
    case Decide(id) => AtPc(s, id, Sizing)
    case Destroy(id) => id in s.threads && s.threads[id].MustDestroy?
    case Deactivate(id) => AtPc(s, id, MayPool)
    case Ask(t, kind) => t !in s.calls
    case CheckQuiesced(t) => t in s.calls && s.calls[t].Asked?
    case TakeOrCreate(t, id) =>
      t in s.calls && s.calls[t].Admitted? && (NothingToTake(s.m, s.calls[t].kind) || IsFirstIdle(s.m, id))
    case CheckAgain(t, memory) => t in s.calls && s.calls[t].MustCreate?
    case Create(t, threadStarts) => t in s.calls && s.calls[t].MayCreate?
    case Quiesce(b) => true
    case ShutDown => true
    case ForceAll => true
    case ForceOne(id) => true
  }

  /** A thread that has found itself forced after a timeout and is on its way to destroy its EDU. */
  predicate ForcedReturn(pc: Pc) {
    pc == Returning(true) || (pc.Looked? && pc.force) || pc == MustDestroy(true)
  }

  /** Behind a timed-out wait a forced EDU goes to its end, whatever is in its queue. */
  predicate Doomed(cb: ControlBlock, pc: Pc) {
    ForcedReturn(pc) || (pc == TimedOut && cb.forced)
  }

  /** What is pending at threads behind a timed-out wait that have not read the force flag yet. */
  function Caught(m: Manager, threads: map<EduId, Pc>): set<Ticket> {
    set id, t | id in m.run && id in threads && threads[id] == TimedOut && t in m.run[id].events :: t
  }

  function Pending(cb: ControlBlock): set<Ticket> {
    set t | t in cb.events
  }

  function WithLost(h: History, ts: set<Ticket>): History {
    h.(lost := h.lost + ts)
  }

  function Apply(s: State, step: Step): State
    requires Enabled(s, step)
  {
    match step
    case EnterWait(id) =>
      var cb := Block(s.m, id);
      s.(m := if cb.status == IDLE then s.m else WithBlock(s.m, id, cb.(status := WAITING)),
         threads := s.threads[id := InWait])
    case PopEvent(id) =>
      var cb := Block(s.m, id);
      s.(m := WithBlock(s.m, id, cb.(status := RUNNING, events := cb.events[1..])),
         threads := s.threads[id := Popped(cb.events[0])])
    case TimeOut(id) =>
      var cb := Block(s.m, id);
      s.(threads := s.threads[id := TimedOut],
         history := if cb.forced then WithLost(s.history, Pending(cb)) else s.history)
    case CheckForced(id) => s.(threads := s.threads[id := if Block(s.m, id).forced then Returning(true) else AtTop])
    case Prepare(id) => s.(m := Waited(s.m, id).0, threads := s.threads[id := Ready(s.threads[id].ticket)])
    case CallEntry(id) =>
      s.(threads := s.threads[id := InEntry], history := s.history.(ran := s.history.ran[s.threads[id].ticket := id]))
    case EntryActivates(id) => s.(m := Activated(s.m, id).0)
    case EntryWaits(id) => s.(m := Waited(s.m, id).0)
    case EntryReturns(id) => s.(threads := s.threads[id := Leaving])
    case WaitAgain(id) => s.(m := Waited(s.m, id).0, threads := s.threads[id := Returning(false)])
    case LookUp(id) =>
      var force := s.threads[id].force;
      s.(threads := s.threads[id := if Known(s.m, id) then Looked(force, Block(s.m, id).kind) else AtTop])
    case CheckDown(id) =>
      var force, kind := s.threads[id].force, s.threads[id].kind;
      s.(threads := s.threads[id := if !IsPoolable(kind) || force || s.m.destroyed then MustDestroy(force) else Sizing])
    case Decide(id) => s.(threads := s.threads[id := if Size(s.m) > s.maxPool then MustDestroy(false) else MayPool])
    case Destroy(id) =>
      var (m, rc) := Destroyed(s.m, id);
      s.(m := m, threads := s.threads[id := if rc == OK || rc == SYS then Exited else AtTop])
    case Deactivate(id) =>
      var (m, rc) := Deactivated(s.m, id);
      s.(m := m, threads := s.threads[id := if rc == SYS then Exited else AtTop])
    case Ask(t, kind) => s.(calls := s.calls[t := Asked(kind)])
    case CheckQuiesced(t) =>
      s.(calls := s.calls[t := if s.m.quiesced then Refused(QUIESCED) else Admitted(s.calls[t].kind)])
    case TakeOrCreate(t, id) =>
      var kind := s.calls[t].kind;
      if NothingToTake(s.m, kind) then
        s.(calls := s.calls[t := MustCreate(kind)])
      else
        s.(m := Taken(s.m, id, kind, t), calls := s.calls[t := Started(id)],
           history := if id in s.threads && Doomed(s.m.idle[id], s.threads[id])
                      then WithLost(s.history, {t}) else s.history)
    case CheckAgain(t, memory) =>
      var kind := s.calls[t].kind;
      s.(calls := s.calls[t := if s.m.quiesced then Refused(QUIESCED)
                              else if kind == UNKNOWN then Refused(INVALIDARG)
                              else if !memory then Refused(OOM)
                              else MayCreate(kind)])
    case Create(t, threadStarts) =>
      var (m, rc) := Created(s.m, s.calls[t].kind, t);
      if rc != OK then
        s.(calls := s.calls[t := Refused(rc)])
      else if !threadStarts then
        s.(m := s.m.(nextId := s.m.nextId + 1), calls := s.calls[t := Refused(SYS)])
      else
        s.(m := m, threads := s.threads[s.m.nextId := AtTop], calls := s.calls[t := Started(s.m.nextId)])
    case Quiesce(b) => s.(m := s.m.(quiesced := b))
    case ShutDown => s.(m := s.m.(destroyed := true))
    case ForceAll =>
      s.(m := s.m.(run := AllForced(s.m.run), idle := AllForced(s.m.idle)),
         history := WithLost(s.history, Caught(s.m, s.threads)))
    case ForceOne(id) =>
      s.(m := OneForced(s.m, id),
         history := if AtPc(s, id, TimedOut) && Known(s.m, id)
                    then WithLost(s.history, Pending(Block(s.m, id))) else s.history)
  }

  function Initial(maxPool: nat): State {
    State(Manager(map[], map[], 1, false, false), map[], map[], maxPool, History(map[], {}))
  }

  predicate IsPath(ss: seq<State>, steps: seq<Step>) {
    && |ss| == |steps| + 1
    && forall i :: 0 <= i < |steps| ==> Enabled(ss[i], steps[i]) && ss[i + 1] == Apply(ss[i], steps[i])
  }

  predicate IsRun(ss: seq<State>, steps: seq<Step>) {
    IsPath(ss, steps) && ss[0] == Initial(ss[0].maxPool)
  }

  // ---- What every state keeps ----

  /** An idle EDU: IDLE, an agent, nothing pending, its thread waiting or, only if forced, leaving. */
  predicate IdleOk(cb: ControlBlock, pc: Pc) {
    && cb.status == IDLE && cb.kind == AGENT && cb.events == []
    && (pc == AtTop || pc == InWait || pc == TimedOut || (ForcedReturn(pc) && cb.forced))
  }

  /** An EDU on the run queue, by where its thread stands. */
  predicate RunOk(cb: ControlBlock, pc: Pc) {
    (ForcedReturn(pc) ==> cb.forced) &&
    match pc
    case AtTop => (cb.status == CREATING || cb.status == WAITING) && |cb.events| == 1
    case InWait => cb.status == WAITING && |cb.events| == 1
    case TimedOut => cb.status == WAITING && |cb.events| == 1
    case Popped(_) => cb.status == RUNNING && cb.events == []
    case Ready(_) => cb.status == WAITING && cb.events == []
    case InEntry => (cb.status == RUNNING || cb.status == WAITING) && cb.events == []
    case Leaving => (cb.status == RUNNING || cb.status == WAITING) && cb.events == []
    case Returning(force) => cb.status == WAITING && |cb.events| == (if force then 1 else 0)
    case Looked(force, kind) =>
      cb.status == WAITING && |cb.events| == (if force then 1 else 0) && (!force ==> kind == cb.kind)
    case Sizing => cb.status == WAITING && cb.events == [] && cb.kind == AGENT
    case MustDestroy(force) => cb.status == WAITING && |cb.events| == (if force then 1 else 0)
    case MayPool => cb.status == WAITING && cb.events == [] && cb.kind == AGENT
    case Exited => false
  }

  /** Both queues disjoint and below the next id; every EDU has a thread whose place fits its block. */
  predicate QueuesOk(m: Manager, threads: map<EduId, Pc>) {
    && m.run.Keys !! m.idle.Keys
    && (forall id :: id in threads ==> id < m.nextId)
    && (forall id :: id in m.run ==> id in threads && RunOk(m.run[id], threads[id]))
    && (forall id :: id in m.idle ==> id in threads && IdleOk(m.idle[id], threads[id]))
    && (forall id :: id in threads && !Known(m, id) ==> threads[id] == Exited)
  }

  /** The threads that have passed the pool-size test and not yet pooled their EDU. */
  function Passed(m: Manager, threads: map<EduId, Pc>): set<EduId> {
    set id | id in m.run && id in threads && threads[id] == MayPool
  }

  predicate PoolOk(m: Manager, threads: map<EduId, Pc>, maxPool: nat) {
    |m.idle| + |Passed(m, threads)| <= maxPool
  }

  predicate Inv(s: State) {
    QueuesOk(s.m, s.threads) && PoolOk(s.m, s.threads, s.maxPool)
  }

  lemma SameKeys(m: Manager, id: EduId, cb: ControlBlock)
    requires Known(m, id)
    ensures WithBlock(m, id, cb).idle.Keys == m.idle.Keys && WithBlock(m, id, cb).run.Keys == m.run.Keys
    ensures |WithBlock(m, id, cb).idle| == |m.idle|
  {
    assert |WithBlock(m, id, cb).idle.Keys| == |m.idle.Keys|;
  }

  lemma SubsetSize<T>(a: set<T>, b: set<T>)
    requires a <= b
    ensures |a| <= |b|
  {
    assert b == a + (b - a);
  }

  lemma SameBlock(m: Manager, id: EduId)
    requires Known(m, id)
    ensures WithBlock(m, id, Block(m, id)) == m
  {
    var n := WithBlock(m, id, Block(m, id));
    assert n.run == m.run && n.idle == m.idle;
  }

  /** One EDU's block and thread move on together. */
  lemma OneMovesQueues(m: Manager, threads: map<EduId, Pc>, id: EduId, cb: ControlBlock, pc: Pc)
    requires QueuesOk(m, threads) && Known(m, id)
    requires if id in m.run then RunOk(cb, pc) else IdleOk(cb, pc)
    ensures QueuesOk(WithBlock(m, id, cb), threads[id := pc])
  {
    hide RunOk, IdleOk;
    SameKeys(m, id, cb);
  }

  lemma OneMovesPool(m: Manager, threads: map<EduId, Pc>, maxPool: nat, id: EduId, cb: ControlBlock, pc: Pc)
    requires PoolOk(m, threads, maxPool) && Known(m, id) && (pc == MayPool ==> Size(m) <= maxPool)
    ensures PoolOk(WithBlock(m, id, cb), threads[id := pc], maxPool)
  {
    var was, now := Passed(m, threads), Passed(WithBlock(m, id, cb), threads[id := pc]);
    SameKeys(m, id, cb);
    if pc == MayPool {
      SubsetSize(now, m.run.Keys);
    } else {
      SubsetSize(now, was);
    }
  }

  /** What one of its own steps does to an EDU's block and thread. */
  predicate Moves(s: State, id: EduId, t: State) {
    && Known(s.m, id) && Known(t.m, id) && id in t.threads
    && t.m == WithBlock(s.m, id, Block(t.m, id)) && t.threads == s.threads[id := t.threads[id]]
    && t.maxPool == s.maxPool
    && (if id in s.m.run then RunOk(Block(t.m, id), t.threads[id]) else IdleOk(Block(t.m, id), t.threads[id]))
    && (t.threads[id] == MayPool ==> Size(s.m) <= s.maxPool)
  }

  lemma MovesKeepInv(s: State, id: EduId, t: State)
    requires Inv(s) && Moves(s, id, t)
    ensures Inv(t)
  {
    hide QueuesOk, PoolOk, RunOk, IdleOk;
    OneMovesQueues(s.m, s.threads, id, Block(t.m, id), t.threads[id]);
    OneMovesPool(s.m, s.threads, s.maxPool, id, Block(t.m, id), t.threads[id]);
  }

  lemma WaitStepMoves(s: State, step: Step)
    requires QueuesOk(s.m, s.threads) && Enabled(s, step) && (step.EnterWait? || step.PopEvent?)
    ensures Moves(s, step.id, Apply(s, step))
  {
    SameBlock(s.m, step.id);
  }

  lemma FlagStepMoves(s: State, step: Step)
    requires QueuesOk(s.m, s.threads) && Enabled(s, step) && (step.TimeOut? || step.CheckForced?)
    ensures Moves(s, step.id, Apply(s, step))
  {
    SameBlock(s.m, step.id);
  }

  lemma CallStepMoves(s: State, step: Step)
    requires QueuesOk(s.m, s.threads) && Enabled(s, step) && (step.Prepare? || step.CallEntry?)
    ensures Moves(s, step.id, Apply(s, step))
  {
    assert step.id in s.m.run;
    SameBlock(s.m, step.id);
  }

  lemma EntryStepMoves(s: State, step: Step)
    requires QueuesOk(s.m, s.threads) && Enabled(s, step)
    requires step.EntryActivates? || step.EntryWaits? || step.EntryReturns? || step.WaitAgain?
    ensures Moves(s, step.id, Apply(s, step))
  {
    assert step.id in s.m.run;
    SameBlock(s.m, step.id);
    assert s.threads == s.threads[step.id := s.threads[step.id]];
  }

  lemma ReturnStepMoves(s: State, step: Step)
    requires QueuesOk(s.m, s.threads) && Enabled(s, step) && (step.LookUp? || step.CheckDown?)
    ensures Moves(s, step.id, Apply(s, step))
  {
    assert Known(s.m, step.id);
    SameBlock(s.m, step.id);
  }

  lemma DecideMoves(s: State, id: EduId)
    requires QueuesOk(s.m, s.threads) && Enabled(s, Decide(id))
    ensures Moves(s, id, Apply(s, Decide(id)))
  {
    assert id in s.m.run;
    SameBlock(s.m, id);
  }

  lemma DestroyQueues(m: Manager, threads: map<EduId, Pc>, id: EduId)
    requires QueuesOk(m, threads) && id in threads && threads[id].MustDestroy?
    ensures Destroyed(m, id).1 == OK && !Known(Destroyed(m, id).0, id)
    ensures QueuesOk(Destroyed(m, id).0, threads[id := Exited])
  {
    assert Known(m, id);
  }

  lemma DestroyPool(m: Manager, threads: map<EduId, Pc>, maxPool: nat, id: EduId)
    requires PoolOk(m, threads, maxPool) && id in threads
    ensures PoolOk(Destroyed(m, id).0, threads[id := Exited], maxPool)
  {
    var n := Destroyed(m, id).0;
    SubsetSize(Passed(n, threads[id := Exited]), Passed(m, threads));
    SubsetSize(n.idle.Keys, m.idle.Keys);
  }

  /** `_destroyEDU` always finds its EDU, waiting or idle: the thread ends. */
  lemma DestroyKeepsInv(s: State, id: EduId)
    requires Inv(s) && Enabled(s, Destroy(id))
    ensures Destroyed(s.m, id).1 == OK
    ensures Inv(Apply(s, Destroy(id)))
    ensures AtPc(Apply(s, Destroy(id)), id, Exited) && !Known(Apply(s, Destroy(id)).m, id)
  {
    hide QueuesOk, PoolOk, Destroyed, Known, Apply;
    DestroyQueues(s.m, s.threads, id);
    DestroyPool(s.m, s.threads, s.maxPool, id);
    DestroyedState(s, id);
  }

  lemma DestroyedState(s: State, id: EduId)
    requires Enabled(s, Destroy(id)) && Destroyed(s.m, id).1 == OK
    ensures Apply(s, Destroy(id)) == s.(m := Destroyed(s.m, id).0, threads := s.threads[id := Exited])
  {
    hide Destroyed;
  }

  lemma PooledQueues(m: Manager, threads: map<EduId, Pc>, id: EduId)
    requires QueuesOk(m, threads) && id in threads && threads[id] == MayPool
    ensures id in m.run && Deactivated(m, id).1 == OK && id in Deactivated(m, id).0.idle
    ensures QueuesOk(Deactivated(m, id).0, threads[id := AtTop])
  {
    assert id in m.run;
    assert IdleOk(m.run[id].(status := IDLE), AtTop);
    hide RunOk, IdleOk;
  }

  lemma PooledPool(m: Manager, threads: map<EduId, Pc>, maxPool: nat, id: EduId)
    requires PoolOk(m, threads, maxPool) && id in m.run && id in threads && threads[id] == MayPool
    requires id !in m.idle && m.run[id].status == WAITING
    ensures PoolOk(Deactivated(m, id).0, threads[id := AtTop], maxPool)
  {
    var n, was := Deactivated(m, id).0, Passed(m, threads);
    var now := Passed(n, threads[id := AtTop]);
    assert id in was && was == now + {id} && id !in now;
    hide Passed, Deactivated;
    assert |was| == |now| + 1;
    assert n.idle.Keys == m.idle.Keys + {id} by { PooledKeys(m, id); }
    assert |n.idle.Keys| == |m.idle.Keys| + 1;
  }

  lemma PooledKeys(m: Manager, id: EduId)
    requires id in m.run && id !in m.idle && m.run[id].status == WAITING
    ensures Deactivated(m, id).0.idle.Keys == m.idle.Keys + {id}
  {
  }

  /** `_deactivateEDU` always finds a waiting agent with nothing pending: pooling trades one passed EDU. */
  lemma DeactivateKeepsInv(s: State, id: EduId)
    requires Inv(s) && Enabled(s, Deactivate(id))
    ensures Deactivated(s.m, id).1 == OK
    ensures Inv(Apply(s, Deactivate(id))) && id in Apply(s, Deactivate(id)).m.idle
  {
    assert id in s.m.run && id !in s.m.idle && s.m.run[id].status == WAITING;
    hide QueuesOk, PoolOk, Deactivated;
    PooledQueues(s.m, s.threads, id);
    PooledPool(s.m, s.threads, s.maxPool, id);
  }

  lemma TakenQueues(m: Manager, threads: map<EduId, Pc>, id: EduId, ticket: Ticket)
    requires QueuesOk(m, threads) && id in m.idle
    ensures QueuesOk(Taken(m, id, AGENT, ticket), threads)
  {
    assert id in threads && IdleOk(m.idle[id], threads[id]);
    var cb := m.idle[id].(kind := AGENT, status := WAITING, events := m.idle[id].events + [ticket]);
    assert RunOk(cb, threads[id]);
    hide RunOk, IdleOk;
  }

  lemma TakenPool(m: Manager, threads: map<EduId, Pc>, maxPool: nat, id: EduId, ticket: Ticket)
    requires QueuesOk(m, threads) && PoolOk(m, threads, maxPool) && id in m.idle
    ensures PoolOk(Taken(m, id, AGENT, ticket), threads, maxPool)
  {
    var n := Taken(m, id, AGENT, ticket);
    assert IdleOk(m.idle[id], threads[id]);
    SubsetSize(Passed(n, threads), Passed(m, threads));
    SubsetSize(n.idle.Keys, m.idle.Keys);
  }

  lemma TakeKeepsInv(s: State, ticket: Ticket, id: EduId)
    requires Inv(s) && Enabled(s, TakeOrCreate(ticket, id))
    ensures Inv(Apply(s, TakeOrCreate(ticket, id)))
  {
    hide QueuesOk, PoolOk, Taken;
    if !NothingToTake(s.m, s.calls[ticket].kind) {
      TakenQueues(s.m, s.threads, id, ticket);
      TakenPool(s.m, s.threads, s.maxPool, id, ticket);
    }
  }

  /** The id `_createNewEDU` assigns is never in use. */
  lemma CreateKeepsInv(s: State, ticket: Ticket, threadStarts: bool)
    requires Inv(s) && Enabled(s, Create(ticket, threadStarts))
    ensures Created(s.m, s.calls[ticket].kind, ticket).1 == OK
    ensures Inv(Apply(s, Create(ticket, threadStarts)))
  {
    var t := Apply(s, Create(ticket, threadStarts));
    SubsetSize(Passed(t.m, t.threads), Passed(s.m, s.threads));
  }

  /** The force flags play no part in the invariant. */
  lemma ForcedQueues(m: Manager, n: Manager, threads: map<EduId, Pc>)
    requires QueuesOk(m, threads) && n.nextId == m.nextId && OnlyForced(m.run, n.run) && OnlyForced(m.idle, n.idle)
    ensures QueuesOk(n, threads)
  {
    forall id | id in n.run
      ensures RunOk(n.run[id], threads[id])
    {
      assert RunOk(m.run[id], threads[id]);
    }
    forall id | id in n.idle
      ensures IdleOk(n.idle[id], threads[id])
    {
      assert IdleOk(m.idle[id], threads[id]);
    }
    hide RunOk, IdleOk;
  }

  predicate OnlyForced(q: map<EduId, ControlBlock>, r: map<EduId, ControlBlock>) {
    q.Keys == r.Keys && forall id :: id in q ==>
        r[id] == q[id].(forced := r[id].forced) && (q[id].forced ==> r[id].forced)
  }

  lemma AllForcedOnly(q: map<EduId, ControlBlock>)
    ensures OnlyForced(q, AllForced(q))
  {
  }

  lemma OneForcedOnly(m: Manager, id: EduId)
    ensures OnlyForced(m.run, OneForced(m, id).run) && OnlyForced(m.idle, OneForced(m, id).idle)
  {
  }

  lemma ForcedPool(m: Manager, n: Manager, threads: map<EduId, Pc>, maxPool: nat)
    requires PoolOk(m, threads, maxPool) && OnlyForced(m.run, n.run) && OnlyForced(m.idle, n.idle)
    ensures PoolOk(n, threads, maxPool)
  {
    assert |n.idle.Keys| == |m.idle.Keys|;
    assert Passed(n, threads) == Passed(m, threads);
  }

  lemma ForceKeepsInv(s: State, step: Step)
    requires Inv(s) && Enabled(s, step) && (step.ForceAll? || step.ForceOne?)
    ensures Inv(Apply(s, step))
  {
    hide QueuesOk, PoolOk, OnlyForced, AllForced, OneForced;
    var t := Apply(s, step);
    match step {
      case ForceAll => AllForcedOnly(s.m.run); AllForcedOnly(s.m.idle);
      case ForceOne(id) => OneForcedOnly(s.m, id); OneForcedFlags(s.m, id);
    }
    ForcedQueues(s.m, t.m, s.threads);
    ForcedPool(s.m, t.m, s.threads, s.maxPool);
  }

  lemma OneForcedFlags(m: Manager, id: EduId)
    ensures OneForced(m, id).nextId == m.nextId
  {
  }

  lemma FlagsKeepInv(s: State, t: State)
    requires Inv(s) && t.m.run == s.m.run && t.m.idle == s.m.idle && t.m.nextId == s.m.nextId
    requires t.threads == s.threads && t.maxPool == s.maxPool
    ensures Inv(t)
  {
    hide RunOk, IdleOk;
    assert Passed(t.m, t.threads) == Passed(s.m, s.threads);
  }

  /** A thread's own steps that leave its EDU in its queue. */
  predicate OwnStep(step: Step) {
    || step.EnterWait? || step.PopEvent? || step.TimeOut? || step.CheckForced? || step.Prepare? || step.CallEntry?
    || step.EntryActivates? || step.EntryWaits? || step.EntryReturns? || step.WaitAgain?
    || step.LookUp? || step.CheckDown? || step.Decide?
  }

  /** Every step of every thread keeps the invariant. */
  lemma StepKeepsInv(s: State, step: Step)
    requires Inv(s) && Enabled(s, step)
    ensures Inv(Apply(s, step)) && Apply(s, step).maxPool == s.maxPool
  {
    hide Moves, QueuesOk, PoolOk;
    match step
    case EnterWait(_) => WaitStepMoves(s, step); MovesKeepInv(s, step.id, Apply(s, step));
    case PopEvent(_) => WaitStepMoves(s, step); MovesKeepInv(s, step.id, Apply(s, step));
    case TimeOut(_) => FlagStepMoves(s, step); MovesKeepInv(s, step.id, Apply(s, step));
    case CheckForced(_) => FlagStepMoves(s, step); MovesKeepInv(s, step.id, Apply(s, step));
    case Prepare(_) => CallStepMoves(s, step); MovesKeepInv(s, step.id, Apply(s, step));
    case CallEntry(_) => CallStepMoves(s, step); MovesKeepInv(s, step.id, Apply(s, step));
    case EntryActivates(_) => EntryStepMoves(s, step); MovesKeepInv(s, step.id, Apply(s, step));
    case EntryWaits(_) => EntryStepMoves(s, step); MovesKeepInv(s, step.id, Apply(s, step));
    case EntryReturns(_) => EntryStepMoves(s, step); MovesKeepInv(s, step.id, Apply(s, step));
    case WaitAgain(_) => EntryStepMoves(s, step); MovesKeepInv(s, step.id, Apply(s, step));
    case LookUp(_) => ReturnStepMoves(s, step); MovesKeepInv(s, step.id, Apply(s, step));
    case CheckDown(_) => ReturnStepMoves(s, step); MovesKeepInv(s, step.id, Apply(s, step));
    case Decide(_) => DecideMoves(s, step.id); MovesKeepInv(s, step.id, Apply(s, step));
    case Destroy(id) => DestroyKeepsInv(s, id);
    case Deactivate(id) => DeactivateKeepsInv(s, id);
    case TakeOrCreate(t, id) => TakeKeepsInv(s, t, id);
    case Create(t, starts) => CreateKeepsInv(s, t, starts);
    case ForceAll => ForceKeepsInv(s, step);
    case ForceOne(_) => ForceKeepsInv(s, step);
    case _ => FlagsKeepInv(s, Apply(s, step));
  }

  /** Every reachable state satisfies the invariant; in particular idle EDUs never exceed the pool. */
  lemma {:induction false} ReachableInv(ss: seq<State>, steps: seq<Step>, i: nat)
    requires IsRun(ss, steps) && i < |ss|
    ensures Inv(ss[i]) && |ss[i].m.idle| <= ss[i].maxPool == ss[0].maxPool
    decreases i
  {
    hide Apply, Enabled;
    if i == 0 {
      assert Passed(ss[0].m, ss[0].threads) == {};
    } else {
      ReachableInv(ss, steps, i - 1);
      StepKeepsInv(ss[i - 1], steps[i - 1]);
    }
  }
}
