/** What becomes of the calls of `startEDU`, and that the manager's methods are the steps taken alone. */
module EduStarts {
  import opened EduManager
  import opened EduSystem
  import opened EduDelivery

  // ---- What one step does to a call ----

  /** A call moves on only past a test that let it through, and is refused only for the cause named. */
  predicate CallEdge(s: State, step: Step, t: State, k: Ticket) {
    if k !in s.calls then
      k in t.calls ==> t.calls[k].Asked?
    else
      && k in t.calls
      && (t.calls[k] == s.calls[k] || Moved(s, step, t, k))
  }

  predicate Moved(s: State, step: Step, t: State, k: Ticket)
    requires k in s.calls && k in t.calls
  {
    match s.calls[k]
    case Asked(kind) => t.calls[k] == if s.m.quiesced then Refused(QUIESCED) else Admitted(kind)
    case Admitted(kind) =>
      if NothingToTake(s.m, kind) then t.calls[k] == MustCreate(kind)
      else
        && t.calls[k].Started? && IsFirstIdle(s.m, t.calls[k].edu)
        && t.calls[k].edu in t.m.run && k in t.m.run[t.calls[k].edu].events
    case MustCreate(kind) =>
      t.calls[k] == if s.m.quiesced then Refused(QUIESCED)
                    else if kind == UNKNOWN then Refused(INVALIDARG)
                    else if step == CheckAgain(k, false) then Refused(OOM)
                    else MayCreate(kind)
    case MayCreate(kind) =>
      && t.m.nextId == s.m.nextId + 1
      && if step == Create(k, false) then t.calls[k] == Refused(SYS) && t.m.run == s.m.run
         else
           && t.calls[k] == Started(s.m.nextId)
           && t.m.run == s.m.run[s.m.nextId := ControlBlock(kind, CREATING, false, [k])]
    case _ => false
  }

  lemma TestMoves(s: State, step: Step, k: Ticket)
    requires Enabled(s, step) && (step.Ask? || step.CheckQuiesced? || step.CheckAgain?)
    ensures CallEdge(s, step, Apply(s, step), k)
  {
  }

  lemma TakeMoves(s: State, step: Step, k: Ticket)
    requires Enabled(s, step) && step.TakeOrCreate?
    ensures CallEdge(s, step, Apply(s, step), k)
  {
    if !NothingToTake(s.m, s.calls[step.ticket].kind) {
      assert step.ticket in (s.m.idle[step.id].events + [step.ticket]);
    }
  }

  lemma CreateMoves(s: State, step: Step, k: Ticket)
    requires Inv(s) && Enabled(s, step) && step.Create?
    ensures CallEdge(s, step, Apply(s, step), k)
  {
    hide QueuesOk, PoolOk;
    CreateKeepsInv(s, step.ticket, step.threadStarts);
  }

  lemma OtherMoves(s: State, step: Step)
    requires Enabled(s, step)
    requires !step.Ask? && !step.CheckQuiesced? && !step.CheckAgain? && !step.TakeOrCreate? && !step.Create?
    ensures Apply(s, step).calls == s.calls
  {
  }

  lemma CallMoves(s: State, step: Step, k: Ticket)
    requires Inv(s) && Enabled(s, step)
    ensures CallEdge(s, step, Apply(s, step), k)
  {
    hide Inv, Enabled, Apply, Moved;
    match step
    case Ask(_, _) => TestMoves(s, step, k);
    case CheckQuiesced(_) => TestMoves(s, step, k);
    case CheckAgain(_, _) => TestMoves(s, step, k);
    case TakeOrCreate(_, _) => TakeMoves(s, step, k);
    case Create(_, _) => CreateMoves(s, step, k);
    case _ => OtherMoves(s, step);
  }

  lemma CallEdges(ss: seq<State>, steps: seq<Step>, i: nat, k: Ticket)
    requires IsRun(ss, steps) && i < |steps|
    ensures CallEdge(ss[i], steps[i], ss[i + 1], k)
  {
    hide CallEdge, Enabled, Apply;
    ReachableInv(ss, steps, i);
    CallMoves(ss[i], steps[i], k);
  }

  // ---- A quiesced manager ----

  predicate QuiescedFrom(ss: seq<State>, i: nat, j: nat)
    requires j < |ss|
  {
    forall k :: i <= k <= j ==> ss[k].m.quiesced
  }

  /** Nothing asked of a quiesced manager is ever admitted, started or run. */
  lemma {:induction false} QuiescedRefuses(ss: seq<State>, steps: seq<Step>, i: nat, j: nat, t: Ticket)
    requires IsRun(ss, steps) && i <= j < |ss| && QuiescedFrom(ss, i, j) && t !in ss[i].calls
    ensures t in ss[j].calls ==> ss[j].calls[t].Asked? || ss[j].calls[t] == Refused(QUIESCED)
    ensures t !in ss[j].history.ran
    decreases j
  {
    hide IsRun, Inv;
    ReachableTickets(ss, steps, j);
    hide OwedOk, StartedOk;
    if i < j {
      QuiescedRefuses(ss, steps, i, j - 1, t);
      RunLength(ss, steps);
      CallEdges(ss, steps, j - 1, t);
    }
  }

  lemma RunLength(ss: seq<State>, steps: seq<Step>)
    requires IsRun(ss, steps)
    ensures |ss| == |steps| + 1
  {
  }

  /** While the manager is quiesced only those calls get an EDU that had passed their test before. */
  lemma {:induction false} QuiescedStarts(ss: seq<State>, steps: seq<Step>, i: nat, j: nat, t: Ticket)
    requires IsRun(ss, steps) && i <= j < |ss| && QuiescedFrom(ss, i, j)
    requires t in ss[j].calls && ss[j].calls[t].Started?
    ensures t in ss[i].calls && (ss[i].calls[t].Started? || ss[i].calls[t].Admitted? || ss[i].calls[t].MayCreate?)
    decreases j
  {
    hide IsRun;
    RunLength(ss, steps);
    if i < j {
      CallEdges(ss, steps, j - 1, t);
      if ss[j - 1].calls[t].Started? {
        QuiescedStarts(ss, steps, i, j - 1, t);
      } else if ss[j - 1].calls[t].Admitted? {
        StaysAdmitted(ss, steps, i, j - 1, t);
      } else {
        StaysCreating(ss, steps, i, j - 1, t);
      }
    }
  }

  lemma {:induction false} StaysAdmitted(ss: seq<State>, steps: seq<Step>, i: nat, j: nat, t: Ticket)
    requires IsRun(ss, steps) && i <= j < |ss| && QuiescedFrom(ss, i, j)
    requires t in ss[j].calls && ss[j].calls[t].Admitted?
    ensures t in ss[i].calls && ss[i].calls[t] == ss[j].calls[t]
    decreases j
  {
    hide IsRun;
    RunLength(ss, steps);
    if i < j {
      CallEdges(ss, steps, j - 1, t);
      StaysAdmitted(ss, steps, i, j - 1, t);
    }
  }

  lemma {:induction false} StaysCreating(ss: seq<State>, steps: seq<Step>, i: nat, j: nat, t: Ticket)
    requires IsRun(ss, steps) && i <= j < |ss| && QuiescedFrom(ss, i, j)
    requires t in ss[j].calls && ss[j].calls[t].MayCreate?
    ensures t in ss[i].calls && ss[i].calls[t] == ss[j].calls[t]
    decreases j
  {
    hide IsRun;
    RunLength(ss, steps);
    if i < j {
      CallEdges(ss, steps, j - 1, t);
      StaysCreating(ss, steps, i, j - 1, t);
    }
  }

  lemma NewThread(s: State, step: Step, e: EduId)
    requires Inv(s) && Enabled(s, step) && e !in s.threads && e in Apply(s, step).threads
    ensures step.Create? && step.ticket in s.calls && s.calls[step.ticket].MayCreate?
    ensures var t := Apply(s, step); step.ticket in t.calls && t.calls[step.ticket] == Started(e)
  {
    if step.Create? {
      CreateKeepsInv(s, step.ticket, step.threadStarts);
    }
  }

  /** An EDU that is new while the manager is quiesced was created by a call past its second test. */
  lemma {:induction false} QuiescedCreates(ss: seq<State>, steps: seq<Step>, i: nat, j: nat, e: EduId)
      returns (t: Ticket)
    requires IsRun(ss, steps) && i <= j < |ss| && QuiescedFrom(ss, i, j) && e !in ss[i].threads && e in ss[j].threads
    ensures t in ss[i].calls && ss[i].calls[t].MayCreate?
    ensures t in ss[j].calls && ss[j].calls[t] == Started(e)
    decreases j
  {
    hide Enabled, Apply, Inv;
    if e in ss[j - 1].threads {
      t := QuiescedCreates(ss, steps, i, j - 1, e);
      StepRecords(ss[j - 1], steps[j - 1]);
    } else {
      ReachableInv(ss, steps, j - 1);
      NewThread(ss[j - 1], steps[j - 1], e);
      t := steps[j - 1].ticket;
      StaysCreating(ss, steps, i, j - 1, t);
    }
  }

  // ---- The methods of the manager are the steps, taken without interference ----

  lemma PathNext(ss: seq<State>, steps: seq<Step>, step: Step)
    requires IsPath(ss, steps) && Enabled(ss[|steps|], step)
    ensures IsPath(ss + [Apply(ss[|steps|], step)], steps + [step])
  {
    hide Enabled, Apply;
    var tt, more := ss + [Apply(ss[|steps|], step)], steps + [step];
    forall i | 0 <= i < |more|
      ensures Enabled(tt[i], more[i]) && tt[i + 1] == Apply(tt[i], more[i])
    {
      if i < |steps| {
        assert Enabled(ss[i], steps[i]) && ss[i + 1] == Apply(ss[i], steps[i]);
      }
    }
  }

  /** Some steps lead from `s` to `t`. */
  ghost predicate LeadsTo(s: State, t: State) {
    exists ss: seq<State>, steps: seq<Step> :: IsPath(ss, steps) && ss[0] == s && ss[|steps|] == t
  }

  lemma LeadsOn(s: State, t: State, step: Step)
    requires LeadsTo(s, t) && Enabled(t, step)
    ensures LeadsTo(s, Apply(t, step))
  {
    hide Enabled, Apply;
    var ss: seq<State>, steps: seq<Step> :| IsPath(ss, steps) && ss[0] == s && ss[|steps|] == t;
    PathLength(ss, steps);
    PathNext(ss, steps, step);
    var tt, more := ss + [Apply(t, step)], steps + [step];
    assert IsPath(tt, more) && tt[0] == s && tt[|more|] == Apply(t, step);
  }

  lemma LeadsStart(s: State)
    ensures LeadsTo(s, s)
  {
    var none: seq<Step> := [];
    assert IsPath([s], none) && [s][|none|] == s;
  }

  /** `startEDU` of the class does what a call does that runs alone: same queues, same answer. */
  method StartAlone(mgr: PmdEduMgr, kind: EduType, ticket: Ticket, memory: bool, threadStarts: bool, ghost s: State)
      returns (rc: Code, id: EduId, ghost t: State)
    requires mgr.Valid() && mgr.State() == s.m && ticket !in s.calls
    modifies mgr
    ensures mgr.Valid() && LeadsTo(s, t) && t.m == mgr.State()
    ensures ticket in t.calls && t.calls[ticket] == if rc == OK then Started(id) else Refused(rc)
  {
    rc, id := mgr.StartEdu(kind, ticket, memory, threadStarts);
    LeadsStart(s);
    t := AskedAlone(s, ticket, kind);
    hide Taken, Created, LeadsTo, OthersKept;
    if !s.m.quiesced {
      if NothingToTake(s.m, kind) {
        t := CreatedAlone(s, t, ticket, kind, memory, threadStarts);
      } else {
        t := TakenAlone(s, t, ticket, kind, id);
      }
    }
  }

  lemma AskedAlone(s: State, ticket: Ticket, kind: EduType) returns (t: State)
    requires ticket !in s.calls
    ensures LeadsTo(s, t)
    ensures t == s.(calls := s.calls[ticket := if s.m.quiesced then Refused(QUIESCED) else Admitted(kind)])
  {
    hide LeadsTo;
    LeadsStart(s);
    LeadsOn(s, s, Ask(ticket, kind));
    t := Apply(s, Ask(ticket, kind));
    LeadsOn(s, t, CheckQuiesced(ticket));
    t := Apply(t, CheckQuiesced(ticket));
    assert s.calls[ticket := Asked(kind)][ticket := t.calls[ticket]] == s.calls[ticket := t.calls[ticket]];
  }

  lemma TakenAlone(s: State, s0: State, ticket: Ticket, kind: EduType, id: EduId) returns (t: State)
    requires LeadsTo(s, s0) && ticket in s0.calls && s0.calls[ticket] == Admitted(kind)
    requires !NothingToTake(s0.m, kind) && IsFirstIdle(s0.m, id)
    ensures LeadsTo(s, t) && t.m == Taken(s0.m, id, kind, ticket)
    ensures ticket in t.calls && t.calls[ticket] == Started(id)
  {
    hide LeadsTo;
    LeadsOn(s, s0, TakeOrCreate(ticket, id));
    t := Apply(s0, TakeOrCreate(ticket, id));
  }

  /** The way through `_createNewEDU`, up to the test that refuses. */
  lemma CreatedAlone(s: State, s0: State, ticket: Ticket, kind: EduType, memory: bool, threadStarts: bool)
      returns (t: State)
    requires LeadsTo(s, s0) && ticket in s0.calls && s0.calls[ticket] == Admitted(kind)
    requires NothingToTake(s0.m, kind) && !s0.m.quiesced
    requires s0.m.nextId !in s0.m.run && s0.m.nextId !in s0.m.idle
    ensures LeadsTo(s, t) && ticket in t.calls
    ensures t.calls[ticket] == if kind == UNKNOWN then Refused(INVALIDARG)
                               else if !memory then Refused(OOM)
                               else if !threadStarts then Refused(SYS)
                               else Started(s0.m.nextId)
    ensures t.m == if kind == UNKNOWN || !memory then s0.m
                   else if !threadStarts then s0.m.(nextId := s0.m.nextId + 1)
                   else Created(s0.m, kind, ticket).0
  {
    hide LeadsTo;
    LeadsOn(s, s0, TakeOrCreate(ticket, 0));
    t := Apply(s0, TakeOrCreate(ticket, 0));
    LeadsOn(s, t, CheckAgain(ticket, memory));
    t := Apply(t, CheckAgain(ticket, memory));
    if kind != UNKNOWN && memory {
      LeadsOn(s, t, Create(ticket, threadStarts));
      t := Apply(t, Create(ticket, threadStarts));
    }
  }

  /** `returnEDU` of the class does what a thread does that returns its EDU alone. */
  method ReturnAlone(mgr: PmdEduMgr, id: EduId, force: bool, maxPool: nat, ghost s: State)
      returns (rc: Code, destroyed: bool, ghost t: State)
    requires mgr.Valid() && mgr.State() == s.m && s.maxPool == maxPool && AtPc(s, id, Returning(force))
    modifies mgr
    ensures mgr.Valid() && LeadsTo(s, t) && t.m == mgr.State()
    ensures id in t.threads && t.threads[id] == if destroyed then Exited else AtTop
  {
    rc, destroyed := mgr.ReturnEdu(id, force, maxPool);
    hide LeadsTo, OthersKept, Destroyed, Deactivated;
    if Known(s.m, id) {
      t := ReturnedAlone(s, id, force);
    } else {
      t := UnknownAlone(s, id, force);
    }
  }

  lemma UnknownAlone(s: State, id: EduId, force: bool) returns (t: State)
    requires AtPc(s, id, Returning(force)) && !Known(s.m, id)
    ensures LeadsTo(s, t) && t.m == s.m && AtPc(t, id, AtTop)
  {
    hide LeadsTo;
    LeadsStart(s);
    LeadsOn(s, s, LookUp(id));
    t := Apply(s, LookUp(id));
  }

  predicate Pools(s: State, id: EduId, force: bool)
    requires Known(s.m, id)
  {
    IsPoolable(Block(s.m, id).kind) && !force && !s.m.destroyed && Size(s.m) <= s.maxPool
  }

  lemma ReturnedAlone(s: State, id: EduId, force: bool) returns (t: State)
    requires AtPc(s, id, Returning(force)) && Known(s.m, id)
    ensures LeadsTo(s, t) && id in t.threads
    ensures var (m, rc) := if Pools(s, id, force) then Deactivated(s.m, id) else Destroyed(s.m, id);
            t.m == m && t.threads[id] == if rc == SYS || (rc == OK && !Pools(s, id, force)) then Exited else AtTop
  {
    hide LeadsTo;
    t := DecidedAlone(s, id, force);
    if Pools(s, id, force) {
      LeadsOn(s, t, Deactivate(id));
      t := Apply(t, Deactivate(id));
    } else {
      LeadsOn(s, t, Destroy(id));
      t := Apply(t, Destroy(id));
    }
  }

  lemma DecidedAlone(s: State, id: EduId, force: bool) returns (t: State)
    requires AtPc(s, id, Returning(force)) && Known(s.m, id)
    ensures LeadsTo(s, t) && t.m == s.m && id in t.threads
    ensures if Pools(s, id, force) then t.threads[id] == MayPool else t.threads[id].MustDestroy?
  {
    hide LeadsTo;
    LeadsStart(s);
    LeadsOn(s, s, LookUp(id));
    t := Apply(s, LookUp(id));
    LeadsOn(s, t, CheckDown(id));
    t := Apply(t, CheckDown(id));
    if t.threads[id] == Sizing {
      LeadsOn(s, t, Decide(id));
      t := Apply(t, Decide(id));
    }
  }
}
