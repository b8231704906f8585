/** What becomes of the work handed to `startEDU`, and which status changes really happen. */
module EduDelivery {
  import opened EduManager
  import opened EduSystem

  /** EDU `e` still owes ticket `t` its entry function. */
  predicate Owes(s: State, e: EduId, t: Ticket) {
    && e in s.m.run && e in s.threads
    && (s.m.run[e].events == [t] || s.threads[e] == Popped(t) || s.threads[e] == Ready(t))
  }

  predicate DoomedAt(s: State, e: EduId) {
    e in s.m.run && e in s.threads && Doomed(s.m.run[e], s.threads[e])
  }

  /** EDU `e` owes `t`, and its thread is not bound to destroy the EDU. */
  predicate MayServe(s: State, e: EduId, t: Ticket) {
    Owes(s, e, t) && !DoomedAt(s, e)
  }

  ghost predicate OwedOk(s: State) {
    forall e, t :: Owes(s, e, t) ==>
      && t in s.calls && s.calls[t] == Started(e) && t !in s.history.ran
      && (t in s.history.lost <==> DoomedAt(s, e))
  }

  predicate RanOk(s: State) {
    && (forall t :: t in s.history.ran ==>
        t in s.calls && s.calls[t] == Started(s.history.ran[t]) && t !in s.history.lost)
    && (forall t :: t in s.history.lost ==> t in s.calls && s.calls[t].Started?)
  }

  predicate StartedOk(s: State) {
    forall t :: t in s.calls && s.calls[t].Started? && t !in s.history.ran && t !in s.history.lost ==>
        Owes(s, s.calls[t].edu, t)
  }

  ghost predicate TicketsOk(s: State) {
    OwedOk(s) && RanOk(s) && StartedOk(s)
  }

  /** A step of thread `id` that neither takes a ticket nor changes the calls. */
  lemma QuietMove(s: State, id: EduId, t: State)
    requires TicketsOk(s) && QueuesOk(s.m, s.threads) && QueuesOk(t.m, t.threads) && Moves(s, id, t)
    requires t.calls == s.calls && t.history == s.history
    requires forall k :: Owes(t, id, k) <==> Owes(s, id, k)
    requires forall k :: Owes(s, id, k) ==> (DoomedAt(t, id) <==> DoomedAt(s, id))
    ensures TicketsOk(t)
  {
    hide RunOk, IdleOk, Doomed;
    assert forall e :: e != id ==> (DoomedAt(t, e) <==> DoomedAt(s, e));
    forall e, k
      ensures Owes(t, e, k) <==> Owes(s, e, k)
    {
    }
  }

  lemma QuietSteps(s: State, step: Step)
    requires Inv(s) && TicketsOk(s) && Enabled(s, step)
    requires OwnStep(step) && !step.CallEntry? && !step.TimeOut?
    ensures TicketsOk(Apply(s, step))
  {
    hide TicketsOk, QueuesOk, PoolOk, Moves;
    var t := Apply(s, step);
    StepKeepsInv(s, step);
    if step.EnterWait? || step.PopEvent? {
      WaitStepMoves(s, step);
      WaitOwes(s, step);
    } else if step.CheckForced? {
      FlagStepMoves(s, step);
      CheckOwes(s, step.id);
    } else if step.Prepare? {
      CallStepMoves(s, step);
      PrepareOwes(s, step.id);
    } else if step.Decide? {
      DecideMoves(s, step.id);
      DecideOwes(s, step.id);
    } else if step.LookUp? || step.CheckDown? {
      ReturnStepMoves(s, step);
      ReturnOwes(s, step);
    } else {
      EntryStepMoves(s, step);
      if step.EntryReturns? || step.WaitAgain? {
        LeavingOwes(s, step);
      } else {
        EntryOwes(s, step);
      }
    }
    QuietMove(s, step.id, t);
  }

  /** A thread's step changes neither what its EDU owes nor whether it is doomed while it owes something. */
  ghost predicate SameDuty(s: State, t: State, id: EduId) {
    forall k :: (Owes(t, id, k) <==> Owes(s, id, k)) && (Owes(s, id, k) ==> (DoomedAt(t, id) <==> DoomedAt(s, id)))
  }

  lemma EntryOwes(s: State, step: Step)
    requires QueuesOk(s.m, s.threads) && Enabled(s, step) && (step.EntryActivates? || step.EntryWaits?)
    ensures SameDuty(s, Apply(s, step), step.id)
  {
  }

  lemma LeavingOwes(s: State, step: Step)
    requires QueuesOk(s.m, s.threads) && Enabled(s, step) && (step.EntryReturns? || step.WaitAgain?)
    ensures SameDuty(s, Apply(s, step), step.id)
  {
  }

  lemma ReturnOwes(s: State, step: Step)
    requires QueuesOk(s.m, s.threads) && Enabled(s, step) && (step.LookUp? || step.CheckDown?)
    ensures SameDuty(s, Apply(s, step), step.id)
  {
    assert Known(s.m, step.id);
  }

  lemma DecideOwes(s: State, id: EduId)
    requires QueuesOk(s.m, s.threads) && Enabled(s, Decide(id))
    ensures SameDuty(s, Apply(s, Decide(id)), id)
  {
  }

  lemma WaitOwes(s: State, step: Step)
    requires QueuesOk(s.m, s.threads) && Enabled(s, step) && (step.EnterWait? || step.PopEvent?)
    ensures SameDuty(s, Apply(s, step), step.id)
  {
  }

  lemma PrepareOwes(s: State, id: EduId)
    requires QueuesOk(s.m, s.threads) && Enabled(s, Prepare(id))
    ensures SameDuty(s, Apply(s, Prepare(id)), id)
  {
  }

  /** Reading the flag only does what was decided when the wait timed out or the force came. */
  lemma CheckOwes(s: State, id: EduId)
    requires QueuesOk(s.m, s.threads) && Enabled(s, CheckForced(id))
    ensures SameDuty(s, Apply(s, CheckForced(id)), id)
  {
  }

  /** What is in the queue of a forced EDU when its wait times out is lost. */
  lemma TimeOutTickets(s: State, id: EduId)
    requires Inv(s) && TicketsOk(s) && Enabled(s, TimeOut(id))
    ensures TicketsOk(Apply(s, TimeOut(id)))
  {
    hide QueuesOk, PoolOk, Owes, Known, Block, Pending, Enabled, Apply, DoomedAt;
    TimeOutOwes(s, id);
  }

  lemma TimeOutOwes(s: State, id: EduId)
    requires QueuesOk(s.m, s.threads) && Enabled(s, TimeOut(id))
    ensures var t := Apply(s, TimeOut(id));
            && t.calls == s.calls && t.history.ran == s.history.ran
            && (forall e, k :: Owes(t, e, k) <==> Owes(s, e, k))
            && (forall e :: e != id ==> (DoomedAt(t, e) <==> DoomedAt(s, e))) && !DoomedAt(s, id)
            && (forall k :: k in t.history.lost <==> k in s.history.lost || (DoomedAt(t, id) && Owes(s, id, k)))
  {
    var cb := Block(s.m, id);
    assert id in s.m.run ==> RunOk(cb, InWait) && cb.events == [cb.events[0]];
    forall k
      ensures k in Pending(cb) <==> Owes(s, id, k)
    {
    }
  }

  /** A force comes too early for the threads behind a timed-out wait. */
  lemma ForceTickets(s: State, step: Step)
    requires Inv(s) && TicketsOk(s) && Enabled(s, step) && (step.ForceAll? || step.ForceOne?)
    ensures TicketsOk(Apply(s, step))
  {
    hide QueuesOk, PoolOk, Owes, Known, Block, Pending, Enabled, Apply, DoomedAt, Caught;
    match step {
      case ForceAll => ForceAllOwes(s);
      case ForceOne(id) => ForceOneOwes(s, id);
    }
  }

  /** From `s` to `t` nothing new is owed, and what is newly doomed is lost. */
  ghost predicate LosesDoomed(s: State, t: State) {
    && t.calls == s.calls && t.history.ran == s.history.ran
    && (forall e, k :: Owes(t, e, k) <==> Owes(s, e, k))
    && (forall e :: DoomedAt(s, e) ==> DoomedAt(t, e))
    && (forall e, k :: Owes(s, e, k) && DoomedAt(t, e) && !DoomedAt(s, e) ==> k in t.history.lost)
    && s.history.lost <= t.history.lost
    && (forall k :: k in t.history.lost && k !in s.history.lost ==> exists e :: Owes(s, e, k) && DoomedAt(t, e))
  }

  lemma ForceAllOwes(s: State)
    requires QueuesOk(s.m, s.threads)
    ensures LosesDoomed(s, Apply(s, ForceAll))
  {
    var t := Apply(s, ForceAll);
    forall e: EduId, k: Ticket | Owes(s, e, k) && DoomedAt(t, e) && !DoomedAt(s, e)
      ensures k in t.history.lost
    {
      assert s.threads[e] == TimedOut && RunOk(s.m.run[e], TimedOut) && s.m.run[e].events == [k];
      assert k in s.m.run[e].events;
    }
    forall k | k in t.history.lost && k !in s.history.lost
      ensures exists e :: Owes(s, e, k) && DoomedAt(t, e)
    {
      var e :| e in s.m.run && e in s.threads && s.threads[e] == TimedOut && k in s.m.run[e].events;
      assert RunOk(s.m.run[e], TimedOut) && s.m.run[e].events == [k];
      assert Owes(s, e, k) && DoomedAt(t, e);
    }
  }

  lemma ForceOneOwes(s: State, id: EduId)
    requires QueuesOk(s.m, s.threads)
    ensures LosesDoomed(s, Apply(s, ForceOne(id)))
  {
    var t := Apply(s, ForceOne(id));
    forall k | k in t.history.lost && k !in s.history.lost
      ensures Owes(s, id, k) && DoomedAt(t, id)
    {
      assert id in s.m.run && RunOk(s.m.run[id], TimedOut) && s.m.run[id].events == [k];
    }
  }

  lemma CallEntryOwes(s: State, id: EduId)
    requires QueuesOk(s.m, s.threads) && Enabled(s, CallEntry(id))
    ensures var t, ticket := Apply(s, CallEntry(id)), s.threads[id].ticket;
            && t.calls == s.calls && t.history == s.history.(ran := s.history.ran[ticket := id])
            && (forall e, k :: Owes(t, e, k) <==> Owes(s, e, k) && e != id)
            && (forall e :: DoomedAt(t, e) <==> DoomedAt(s, e)) && !DoomedAt(s, id)
            && (forall k :: Owes(s, id, k) <==> k == ticket)
  {
    assert id in s.m.run;
  }

  /** The entry function is called once for the ticket, at the EDU it was started on. */
  lemma CallEntryTickets(s: State, id: EduId)
    requires Inv(s) && TicketsOk(s) && Enabled(s, CallEntry(id))
    ensures var t, ticket := Apply(s, CallEntry(id)), s.threads[id].ticket;
            && TicketsOk(t)
            && ticket !in s.history.ran && t.history.ran == s.history.ran[ticket := id]
            && s.calls[ticket] == Started(id)
  {
    hide QueuesOk, PoolOk, Owes, DoomedAt, Apply;
    CallEntryOwes(s, id);
    assert Owes(s, id, s.threads[id].ticket);
  }

  lemma DestroyOwes(s: State, id: EduId)
    requires QueuesOk(s.m, s.threads) && Enabled(s, Destroy(id))
    ensures var t := Apply(s, Destroy(id));
            && (forall e, k :: Owes(t, e, k) <==> Owes(s, e, k) && e != id)
            && (forall e :: e != id ==> (DoomedAt(t, e) <==> DoomedAt(s, e)))
            && t.calls == s.calls && t.history == s.history
  {
    assert Known(s.m, id);
  }

  /** What an EDU to be destroyed still owes is lost. */
  lemma PendingLost(s: State, id: EduId)
    requires QueuesOk(s.m, s.threads) && OwedOk(s) && Enabled(s, Destroy(id))
    ensures forall k :: Owes(s, id, k) ==> k in s.history.lost
  {
    forall k | Owes(s, id, k)
      ensures k in s.history.lost
    {
      assert RunOk(s.m.run[id], s.threads[id]);
    }
  }

  lemma DestroyTickets(s: State, id: EduId)
    requires Inv(s) && TicketsOk(s) && Enabled(s, Destroy(id))
    ensures TicketsOk(Apply(s, Destroy(id)))
  {
    hide QueuesOk, PoolOk, Owes, Known, Destroyed, DoomedAt, Enabled, Apply;
    DestroyOwes(s, id);
    PendingLost(s, id);
  }

  lemma DeactivateTickets(s: State, id: EduId)
    requires Inv(s) && TicketsOk(s) && Enabled(s, Deactivate(id))
    ensures TicketsOk(Apply(s, Deactivate(id)))
  {
    var t := Apply(s, Deactivate(id));
    assert Known(s.m, id);
    forall e, k
      ensures Owes(t, e, k) <==> Owes(s, e, k)
    {
    }
  }

  lemma TakeOwes(s: State, ticket: Ticket, id: EduId)
    requires Inv(s) && Enabled(s, TakeOrCreate(ticket, id)) && !NothingToTake(s.m, s.calls[ticket].kind)
    ensures var t := Apply(s, TakeOrCreate(ticket, id));
            && (forall e: EduId, k: Ticket :: Owes(t, e, k) <==> Owes(s, e, k) || (e == id && k == ticket))
            && (forall e :: e != id ==> (DoomedAt(t, e) <==> DoomedAt(s, e)))
            && (forall k :: !Owes(s, id, k))
            && t.history == if DoomedAt(t, id) then WithLost(s.history, {ticket}) else s.history
  {
    var t := Apply(s, TakeOrCreate(ticket, id));
    assert IdleOk(s.m.idle[id], s.threads[id]);
    assert t.m.run[id].events == [ticket] && t.threads == s.threads;
    forall e: EduId, k: Ticket
      ensures Owes(t, e, k) <==> Owes(s, e, k) || (e == id && k == ticket)
    {
      assert [ticket] == [k] ==> [ticket][0] == [k][0];
    }
  }

  lemma TakeTickets(s: State, ticket: Ticket, id: EduId)
    requires Inv(s) && TicketsOk(s) && Enabled(s, TakeOrCreate(ticket, id))
    ensures TicketsOk(Apply(s, TakeOrCreate(ticket, id)))
  {
    hide QueuesOk, PoolOk, DoomedAt, Owes;
    var t := Apply(s, TakeOrCreate(ticket, id));
    if NothingToTake(s.m, s.calls[ticket].kind) {
      hide TicketsOk;
      SameOwed(s, t);
    } else {
      TakeOwes(s, ticket, id);
      TakenTickets(s, t, ticket, id);
    }
  }

  lemma TakenTickets(s: State, t: State, ticket: Ticket, id: EduId)
    requires TicketsOk(s) && ticket in s.calls && !s.calls[ticket].Started?
    requires forall e: EduId, k: Ticket :: Owes(t, e, k) <==> Owes(s, e, k) || (e == id && k == ticket)
    requires forall e :: e != id ==> (DoomedAt(t, e) <==> DoomedAt(s, e))
    requires forall k :: !Owes(s, id, k)
    requires t.calls == s.calls[ticket := Started(id)]
    requires t.history == if DoomedAt(t, id) then WithLost(s.history, {ticket}) else s.history
    ensures TicketsOk(t)
  {
    hide Owes, DoomedAt;
  }

  lemma CreateOwes(s: State, ticket: Ticket, threadStarts: bool)
    requires QueuesOk(s.m, s.threads) && Enabled(s, Create(ticket, threadStarts))
    ensures var t, n := Apply(s, Create(ticket, threadStarts)), s.m.nextId;
            && t.history == s.history && (forall k :: !Owes(s, n, k)) && !DoomedAt(t, n)
            && t.calls == s.calls[ticket := if threadStarts then Started(n) else Refused(SYS)]
            && (forall e, k :: Owes(t, e, k) <==> Owes(s, e, k) || (threadStarts && e == n && k == ticket))
            && (forall e :: e != n ==> (DoomedAt(t, e) <==> DoomedAt(s, e)))
  {
    var n := s.m.nextId;
    assert n !in s.threads && !Known(s.m, n);
  }

  lemma CreateTickets(s: State, ticket: Ticket, threadStarts: bool)
    requires Inv(s) && TicketsOk(s) && Enabled(s, Create(ticket, threadStarts))
    ensures TicketsOk(Apply(s, Create(ticket, threadStarts)))
  {
    hide QueuesOk, PoolOk, Owes, DoomedAt, Apply;
    assert ticket in s.calls && !s.calls[ticket].Started?;
    hide Enabled;
    CreateOwes(s, ticket, threadStarts);
  }

  lemma SameOwed(s: State, t: State)
    requires TicketsOk(s) && t.threads == s.threads && t.m.run.Keys == s.m.run.Keys && t.history == s.history
    requires forall e :: e in s.m.run ==>
        t.m.run[e].events == s.m.run[e].events && t.m.run[e].forced == s.m.run[e].forced
    requires forall k :: k in s.calls && s.calls[k].Started? ==> k in t.calls && t.calls[k] == s.calls[k]
    requires forall k :: k in t.calls && t.calls[k].Started? ==> k in s.calls && s.calls[k] == t.calls[k]
    ensures TicketsOk(t)
  {
    forall e, k
      ensures (Owes(t, e, k) <==> Owes(s, e, k)) && (DoomedAt(t, e) <==> DoomedAt(s, e))
    {
    }
  }

  lemma OtherTickets(s: State, step: Step)
    requires TicketsOk(s) && Enabled(s, step)
    requires step.Ask? || step.CheckQuiesced? || step.CheckAgain? || step.Quiesce? || step.ShutDown?
    ensures TicketsOk(Apply(s, step))
  {
    hide TicketsOk;
    SameOwed(s, Apply(s, step));
  }

  lemma StepKeepsTickets(s: State, step: Step)
    requires Inv(s) && TicketsOk(s) && Enabled(s, step)
    ensures TicketsOk(Apply(s, step))
  {
    hide Inv, TicketsOk, Enabled, Apply;
    match step
    case CallEntry(id) => CallEntryTickets(s, id);
    case TimeOut(id) => TimeOutTickets(s, id);
    case Destroy(id) => DestroyTickets(s, id);
    case Deactivate(id) => DeactivateTickets(s, id);
    case TakeOrCreate(t, id) => TakeTickets(s, t, id);
    case Create(t, starts) => CreateTickets(s, t, starts);
    case ForceAll => ForceTickets(s, step);
    case ForceOne(_) => ForceTickets(s, step);
    case _ =>
      if OwnStep(step) {
        QuietSteps(s, step);
      } else {
        OtherTickets(s, step);
      }
  }

  // ---- Whole runs ----

  /** Nothing a state has recorded is taken back: neither a start, nor a ticket run, nor one lost. */
  predicate Recorded(s: State, t: State) {
    && (forall k :: k in s.calls && s.calls[k].Started? ==> k in t.calls && t.calls[k] == s.calls[k])
    && s.history.lost <= t.history.lost && s.history.ran.Keys <= t.history.ran.Keys
  }

  lemma StepRecords(s: State, step: Step)
    requires Enabled(s, step)
    ensures Recorded(s, Apply(s, step))
  {
  }

  lemma RecordedTrans(s: State, t: State, u: State)
    requires Recorded(s, t) && Recorded(t, u)
    ensures Recorded(s, u)
  {
  }

  /** What holds along every continuation of a state in which the invariants hold. */
  lemma {:induction false} PathKeeps(ss: seq<State>, steps: seq<Step>, i: nat, j: nat)
    requires IsPath(ss, steps) && i <= j < |ss| && Inv(ss[i]) && TicketsOk(ss[i])
    ensures Inv(ss[j]) && TicketsOk(ss[j]) && Recorded(ss[i], ss[j])
    decreases j
  {
    hide Inv, TicketsOk, Enabled, Apply;
    if i < j {
      PathKeeps(ss, steps, i, j - 1);
      StepKeepsInv(ss[j - 1], steps[j - 1]);
      StepKeepsTickets(ss[j - 1], steps[j - 1]);
      StepRecords(ss[j - 1], steps[j - 1]);
      RecordedTrans(ss[i], ss[j - 1], ss[j]);
    }
  }

  lemma ReachableTickets(ss: seq<State>, steps: seq<Step>, i: nat)
    requires IsRun(ss, steps) && i < |ss|
    ensures Inv(ss[i]) && TicketsOk(ss[i])
  {
    hide Inv, TicketsOk, Enabled, Apply;
    ReachableInv(ss, steps, 0);
    InitialTickets(ss[0].maxPool);
    PathKeeps(ss, steps, 0, i);
  }

  lemma InitialTickets(maxPool: nat)
    ensures TicketsOk(Initial(maxPool))
  {
  }

  // ---- Delivery ----

  /** Some continuation runs ticket `t`, and runs it at EDU `e`. */
  ghost predicate CanRun(s: State, e: EduId, t: Ticket) {
    exists ss: seq<State>, steps: seq<Step> :: RunsAt(s, e, t, ss, steps)
  }

  predicate RunsAt(s: State, e: EduId, t: Ticket, ss: seq<State>, steps: seq<Step>) {
    IsPath(ss, steps) && ss[0] == s && HasRun(ss[|steps|], e, t)
  }

  predicate HasRun(s: State, e: EduId, t: Ticket) {
    t in s.history.ran && s.history.ran[t] == e
  }

  lemma RunsAtOnce(s: State, e: EduId, t: Ticket)
    requires HasRun(s, e, t)
    ensures CanRun(s, e, t)
  {
    var none: seq<Step> := [];
    assert RunsAt(s, e, t, [s], none);
  }

  lemma CanRunAfter(s: State, step: Step, e: EduId, t: Ticket)
    requires Enabled(s, step) && CanRun(Apply(s, step), e, t)
    ensures CanRun(s, e, t)
  {
    hide Enabled, Apply;
    var ss: seq<State>, steps: seq<Step> :| RunsAt(Apply(s, step), e, t, ss, steps);
    var tt, more := [s] + ss, [step] + steps;
    forall i | 0 <= i < |more|
      ensures Enabled(tt[i], more[i]) && tt[i + 1] == Apply(tt[i], more[i])
    {
      if i > 0 {
        assert tt[i] == ss[i - 1] && tt[i + 1] == ss[i] && more[i] == steps[i - 1];
      }
    }
    assert tt[|more|] == ss[|steps|];
    assert RunsAt(s, e, t, tt, more);
  }

  /** How many of its own steps the EDU's thread is away from the entry function. */
  function StepsToGo(pc: Pc): nat {
    match pc
    case TimedOut => 5
    case AtTop => 4
    case InWait => 3
    case Popped(_) => 2
    case Ready(_) => 1
    case _ => 0
  }

  function NextStep(pc: Pc, e: EduId): Step {
    match pc
    case TimedOut => CheckForced(e)
    case AtTop => EnterWait(e)
    case InWait => PopEvent(e)
    case Popped(_) => Prepare(e)
    case _ => CallEntry(e)
  }

  /** The thread's next step is possible and brings it nearer to the entry function. */
  lemma Nearer(s: State, e: EduId, t: Ticket)
    requires QueuesOk(s.m, s.threads) && MayServe(s, e, t)
    ensures var step := NextStep(s.threads[e], e);
            && Enabled(s, step)
            && var n := Apply(s, step);
               HasRun(n, e, t) || (MayServe(n, e, t) && StepsToGo(n.threads[e]) < StepsToGo(s.threads[e]))
  {
    assert RunOk(s.m.run[e], s.threads[e]);
  }

  /** Left alone, the thread runs what its EDU owes. */
  lemma {:induction false} OwedCanRun(s: State, e: EduId, t: Ticket)
    requires Inv(s) && MayServe(s, e, t)
    ensures CanRun(s, e, t)
    decreases StepsToGo(s.threads[e])
  {
    hide QueuesOk, PoolOk, Enabled, Apply, CanRun, HasRun, StepsToGo;
    var step := NextStep(s.threads[e], e);
    Nearer(s, e, t);
    var n := Apply(s, step);
    StepKeepsInv(s, step);
    if HasRun(n, e, t) {
      RunsAtOnce(n, e, t);
    } else {
      OwedCanRun(n, e, t);
    }
    CanRunAfter(s, step, e, t);
  }

  /** What has been recorded as lost is never run, and nothing is run but where it was started. */
  lemma CannotRun(s: State, e: EduId, t: Ticket)
    requires Inv(s) && TicketsOk(s) && CanRun(s, e, t) && t in s.calls && s.calls[t].Started?
    ensures t !in s.history.lost && s.calls[t] == Started(e)
  {
    hide Inv, OwedOk, StartedOk, IsPath;
    var ss: seq<State>, steps: seq<Step> :| RunsAt(s, e, t, ss, steps);
    assert |ss| == |steps| + 1 by { PathLength(ss, steps); }
    PathKeeps(ss, steps, 0, |steps|);
  }

  lemma PathLength(ss: seq<State>, steps: seq<Step>)
    requires IsPath(ss, steps)
    ensures |ss| == |steps| + 1
  {
  }

  /**
   Work is delivered unless it is lost. In every reachable state a started ticket that is not lost
   has been run at its own EDU or, and not both, is owed by that EDU, which is not doomed; some
   continuation then runs it. A lost ticket is run by none. No other EDU ever runs it.
   */
  lemma DeliveredUnlessLost(ss: seq<State>, steps: seq<Step>, i: nat, t: Ticket)
    requires IsRun(ss, steps) && i < |ss| && t in ss[i].calls && ss[i].calls[t].Started?
    ensures var s, e := ss[i], ss[i].calls[t].edu;
            && (t !in s.history.lost <==> CanRun(s, e, t))
            && (t !in s.history.lost <==> HasRun(s, e, t) || MayServe(s, e, t))
            && !(HasRun(s, e, t) && MayServe(s, e, t))
            && (forall f :: CanRun(s, f, t) || MayServe(s, f, t) ==> f == e)
  {
    var s, e := ss[i], ss[i].calls[t].edu;
    ReachableTickets(ss, steps, i);
    hide Inv, CanRun, DoomedAt, Owes, IsPath;
    forall f | CanRun(s, f, t)
      ensures f == e && t !in s.history.lost
    {
      CannotRun(s, f, t);
    }
    if HasRun(s, e, t) {
      RunsAtOnce(s, e, t);
    } else if MayServe(s, e, t) {
      OwedCanRun(s, e, t);
    }
  }

  lemma AtEntry(s: State, id: EduId)
    requires Enabled(s, CallEntry(id))
    ensures id in s.threads && s.threads[id].Ready?
  {
  }

  /** No ticket is run twice. */
  lemma RunsOnce(ss: seq<State>, steps: seq<Step>, i: nat, j: nat)
    requires IsRun(ss, steps) && i < j < |steps| && steps[i].CallEntry? && steps[j].CallEntry?
    ensures steps[i].id in ss[i].threads && steps[j].id in ss[j].threads
    ensures ss[i].threads[steps[i].id].Ready? && ss[j].threads[steps[j].id].Ready?
    ensures ss[i].threads[steps[i].id].ticket != ss[j].threads[steps[j].id].ticket
  {
    hide Inv, TicketsOk, Enabled, Apply;
    ReachableTickets(ss, steps, i);
    ReachableTickets(ss, steps, i + 1);
    ReachableTickets(ss, steps, j);
    AtEntry(ss[i], steps[i].id);
    AtEntry(ss[j], steps[j].id);
    CallEntryTickets(ss[i], steps[i].id);
    CallEntryTickets(ss[j], steps[j].id);
    PathKeeps(ss, steps, i + 1, j);
  }

  /**
   The ways to lose a ticket: a timed-out wait leaves it in the queue of a forced EDU, a force comes
   between such a timeout and the test of the flag, or the start takes an EDU that is past that
   point already.
   */
  predicate LosesAt(s: State, step: Step, t: Ticket)
    requires Enabled(s, step)
  {
    match step
    case TimeOut(id) => Block(s.m, id).forced && t in Block(s.m, id).events
    case ForceAll => exists id :: id in s.m.run && AtPc(s, id, TimedOut) && t in s.m.run[id].events
    case ForceOne(id) => AtPc(s, id, TimedOut) && Known(s.m, id) && t in Block(s.m, id).events
    case TakeOrCreate(k, id) =>
      k == t && !NothingToTake(s.m, s.calls[k].kind) && id in s.threads && Doomed(s.m.idle[id], s.threads[id])
    case _ => false
  }

  lemma LostByStep(s: State, step: Step, t: Ticket)
    requires Enabled(s, step)
    ensures t in Apply(s, step).history.lost <==> t in s.history.lost || LosesAt(s, step, t)
  {
  }

  lemma {:induction false} LostSince(ss: seq<State>, steps: seq<Step>, j: nat, t: Ticket)
    requires IsRun(ss, steps) && j < |ss|
    ensures t in ss[j].history.lost <==> exists i :: 0 <= i < j && LosesAt(ss[i], steps[i], t)
    decreases j
  {
    hide LosesAt, Enabled, Apply;
    if j > 0 {
      LostSince(ss, steps, j - 1, t);
      LostByStep(ss[j - 1], steps[j - 1], t);
    }
  }

  /** No continuation runs a started ticket exactly when an earlier step lost it in one of these ways. */
  lemma LostExactly(ss: seq<State>, steps: seq<Step>, j: nat, t: Ticket)
    requires IsRun(ss, steps) && j < |ss| && t in ss[j].calls && ss[j].calls[t].Started?
    ensures (forall e :: !CanRun(ss[j], e, t)) <==> exists i :: 0 <= i < j && LosesAt(ss[i], steps[i], t)
  {
    hide LosesAt, Enabled, Apply, CanRun, MayServe, HasRun;
    LostSince(ss, steps, j, t);
    DeliveredUnlessLost(ss, steps, j, t);
  }

  /** Whatever loses a ticket, the EDU is forced while it owes it. */
  lemma LosingIsForced(s: State, step: Step, t: Ticket) returns (e: EduId)
    requires Inv(s) && TicketsOk(s) && Enabled(s, step) && LosesAt(s, step, t)
    ensures var n := Apply(s, step);
            t in n.calls && n.calls[t] == Started(e) && Owes(n, e, t) && n.m.run[e].forced
  {
    StepKeepsTickets(s, step);
    e := LosingEdu(s, step, t);
    assert Owes(Apply(s, step), e, t);
  }

  lemma LosingEdu(s: State, step: Step, t: Ticket) returns (e: EduId)
    requires Inv(s) && Enabled(s, step) && LosesAt(s, step, t)
    ensures Owes(Apply(s, step), e, t) && Apply(s, step).m.run[e].forced
  {
    hide PoolOk;
    match step {
      case TimeOut(id) =>
        e := id;
        assert RunOk(s.m.run[e], InWait) && s.m.run[e].events == [t];
      case ForceAll =>
        e :| e in s.m.run && AtPc(s, e, TimedOut) && t in s.m.run[e].events;
        assert RunOk(s.m.run[e], TimedOut) && s.m.run[e].events == [t];
      case ForceOne(id) =>
        e := id;
        assert RunOk(s.m.run[e], TimedOut) && s.m.run[e].events == [t];
      case TakeOrCreate(_, id) =>
        e := id;
        assert IdleOk(s.m.idle[e], s.threads[e]) && s.m.idle[e].forced;
        assert Apply(s, step).m.run[e].events == [t];
    }
  }

  /**
   What a caller can rely on: an EDU that is not forced in any state in which it owes the ticket has
   run it or is on its way to, and a continuation runs it.
   */
  lemma UnforcedIsServed(ss: seq<State>, steps: seq<Step>, j: nat, t: Ticket)
    requires IsRun(ss, steps) && j < |ss| && t in ss[j].calls && ss[j].calls[t].Started?
    requires var e := ss[j].calls[t].edu; forall i :: 0 <= i <= j && Owes(ss[i], e, t) ==> !ss[i].m.run[e].forced
    ensures var s, e := ss[j], ss[j].calls[t].edu;
            (HasRun(s, e, t) || MayServe(s, e, t)) && CanRun(s, e, t)
  {
    hide LosesAt, Enabled, Apply, Inv, TicketsOk, Owes, MayServe, CanRun, HasRun;
    LostSince(ss, steps, j, t);
    if t in ss[j].history.lost {
      var i :| 0 <= i < j && LosesAt(ss[i], steps[i], t);
      ReachableTickets(ss, steps, i);
      ReachableTickets(ss, steps, i + 1);
      var e := LosingIsForced(ss[i], steps[i], t);
      PathKeeps(ss, steps, i + 1, j);
      assert false;
    }
    DeliveredUnlessLost(ss, steps, j, t);
  }

  /** Nothing pooled or destroyed is owed, but for a lost ticket. */
  lemma NothingPendingIsDropped(ss: seq<State>, steps: seq<Step>, i: nat, e: EduId)
    requires IsRun(ss, steps) && i < |steps| && (steps[i] == Destroy(e) || steps[i] == Deactivate(e))
    ensures e in ss[i].m.run && ss[i].m.run[e].events != [] ==>
              steps[i] == Destroy(e) && |ss[i].m.run[e].events| == 1 && ss[i].m.run[e].events[0] in ss[i].history.lost
    ensures e in ss[i].m.idle ==> ss[i].m.idle[e].events == []
  {
    ReachableTickets(ss, steps, i);
    assert Enabled(ss[i], steps[i]);
    var s := ss[i];
    if e in s.m.run && s.m.run[e].events != [] {
      assert Owes(s, e, s.m.run[e].events[0]);
    }
  }

  ghost predicate Reachable(s: State) {
    exists ss: seq<State>, steps: seq<Step> :: IsRun(ss, steps) && ss[|steps|] == s
  }

  lemma ReachableStep(s: State, step: Step)
    requires Reachable(s) && Enabled(s, step)
    ensures Reachable(Apply(s, step))
  {
    hide Enabled, Apply;
    var ss: seq<State>, steps: seq<Step> :| IsRun(ss, steps) && ss[|steps|] == s;
    var tt, more := ss + [Apply(s, step)], steps + [step];
    forall i | 0 <= i < |more|
      ensures Enabled(tt[i], more[i]) && tt[i + 1] == Apply(tt[i], more[i])
    {
      if i < |steps| {
        assert Enabled(ss[i], steps[i]) && ss[i + 1] == Apply(ss[i], steps[i]);
      }
    }
    assert IsRun(tt, more) && tt[|more|] == Apply(s, step);
  }

  /** The only EDU is number 1, with this block and at this place. */
  predicate OnlyRunning(s: State, cb: ControlBlock, pc: Pc) {
    && s.m == Manager(map[1 := cb], map[], 2, false, false)
    && s.threads == map[1 := pc] && s.maxPool == 1
    && s.history.lost == {} && 1 !in s.calls && 1 !in s.history.ran
  }

  predicate OnlyIdle(s: State, cb: ControlBlock, pc: Pc) {
    && s.m == Manager(map[], map[1 := cb], 2, false, false)
    && s.threads == map[1 := pc] && s.maxPool == 1
    && s.history.lost == {} && 1 !in s.calls && 1 !in s.history.ran
  }

  lemma InitialReachable(maxPool: nat)
    ensures Reachable(Initial(maxPool))
  {
    var none: seq<Step> := [];
    assert IsRun([Initial(maxPool)], none) && [Initial(maxPool)][|none|] == Initial(maxPool);
  }

  lemma FirstAdmitted() returns (s: State)
    ensures Reachable(s) && s == Initial(1).(calls := map[0 := Admitted(AGENT)])
  {
    hide Reachable;
    InitialReachable(1);
    s := Initial(1);
    ReachableStep(s, Ask(0, AGENT));
    s := Apply(s, Ask(0, AGENT));
    ReachableStep(s, CheckQuiesced(0));
    s := Apply(s, CheckQuiesced(0));
  }

  lemma FirstAsked() returns (s: State)
    ensures Reachable(s) && s == Initial(1).(calls := map[0 := MustCreate(AGENT)])
  {
    hide Reachable;
    s := FirstAdmitted();
    ReachableStep(s, TakeOrCreate(0, 0));
    s := Apply(s, TakeOrCreate(0, 0));
  }

  lemma FirstCreated() returns (s: State)
    ensures Reachable(s) && OnlyRunning(s, ControlBlock(AGENT, CREATING, false, [0]), AtTop)
  {
    hide Reachable;
    s := FirstAsked();
    ReachableStep(s, CheckAgain(0, true));
    s := Apply(s, CheckAgain(0, true));
    ReachableStep(s, Create(0, true));
    s := Apply(s, Create(0, true));
  }

  lemma FirstPopped(s0: State) returns (s: State)
    requires Reachable(s0) && OnlyRunning(s0, ControlBlock(AGENT, CREATING, false, [0]), AtTop)
    ensures Reachable(s) && OnlyRunning(s, ControlBlock(AGENT, RUNNING, false, []), Popped(0))
  {
    hide Reachable;
    s := s0;
    ReachableStep(s, EnterWait(1));
    s := Apply(s, EnterWait(1));
    assert OnlyRunning(s, ControlBlock(AGENT, WAITING, false, [0]), InWait);
    var queue: seq<Ticket> := [0];
    assert queue[1..] == [];
    ReachableStep(s, PopEvent(1));
    s := Apply(s, PopEvent(1));
  }

  lemma FirstServed(s0: State) returns (s: State)
    requires Reachable(s0) && OnlyRunning(s0, ControlBlock(AGENT, RUNNING, false, []), Popped(0))
    ensures Reachable(s) && OnlyRunning(s, ControlBlock(AGENT, WAITING, false, []), Returning(false))
  {
    hide Reachable;
    s := s0;
    ReachableStep(s, Prepare(1));
    s := Apply(s, Prepare(1));
    ReachableStep(s, CallEntry(1));
    s := Apply(s, CallEntry(1));
    ReachableStep(s, EntryReturns(1));
    s := Apply(s, EntryReturns(1));
    ReachableStep(s, WaitAgain(1));
    s := Apply(s, WaitAgain(1));
  }

  lemma FirstSized(s0: State) returns (s: State)
    requires Reachable(s0) && OnlyRunning(s0, ControlBlock(AGENT, WAITING, false, []), Returning(false))
    ensures Reachable(s) && OnlyRunning(s, ControlBlock(AGENT, WAITING, false, []), Sizing)
  {
    hide Reachable;
    s := s0;
    ReachableStep(s, LookUp(1));
    s := Apply(s, LookUp(1));
    ReachableStep(s, CheckDown(1));
    s := Apply(s, CheckDown(1));
  }

  lemma FirstPooled(s0: State) returns (s: State)
    requires Reachable(s0) && OnlyRunning(s0, ControlBlock(AGENT, WAITING, false, []), Sizing)
    ensures Reachable(s) && OnlyIdle(s, ControlBlock(AGENT, IDLE, false, []), AtTop)
  {
    hide Reachable;
    s := s0;
    ReachableStep(s, Decide(1));
    s := Apply(s, Decide(1));
    ReachableStep(s, Deactivate(1));
    s := Apply(s, Deactivate(1));
  }

  lemma FirstWaiting(s0: State) returns (s: State)
    requires Reachable(s0) && OnlyIdle(s0, ControlBlock(AGENT, IDLE, false, []), AtTop)
    ensures Reachable(s) && OnlyIdle(s, ControlBlock(AGENT, IDLE, false, []), InWait)
  {
    hide Reachable;
    s := s0;
    ReachableStep(s, EnterWait(1));
    s := Apply(s, EnterWait(1));
  }

  lemma IdleForced(s0: State) returns (s: State)
    requires Reachable(s0) && OnlyIdle(s0, ControlBlock(AGENT, IDLE, false, []), InWait)
    ensures Reachable(s) && OnlyIdle(s, ControlBlock(AGENT, IDLE, true, []), InWait)
  {
    hide Reachable;
    s := s0;
    ReachableStep(s, ForceOne(1));
    s := Apply(s, ForceOne(1));
  }

  lemma FirstForced(s0: State) returns (s: State)
    requires Reachable(s0) && OnlyIdle(s0, ControlBlock(AGENT, IDLE, true, []), InWait)
    ensures Reachable(s) && OnlyIdle(s, ControlBlock(AGENT, IDLE, true, []), Returning(true))
  {
    hide Reachable;
    s := s0;
    ReachableStep(s, TimeOut(1));
    s := Apply(s, TimeOut(1));
    ReachableStep(s, CheckForced(1));
    s := Apply(s, CheckForced(1));
  }

  /** The second start has taken the agent: this is its block and the place of its thread. */
  predicate SecondAt(s: State, forced: bool, pc: Pc) {
    && 1 in s.calls && s.calls[1] == Started(1)
    && s.m == Manager(map[1 := ControlBlock(AGENT, WAITING, forced, [1])], map[], 2, false, false)
    && s.threads == map[1 := pc] && s.maxPool == 1
    && s.history.lost == if Doomed(s.m.run[1], pc) then {1} else {}
  }

  /** A second start takes the idle agent, wherever its thread stands. */
  lemma SecondTaken(s0: State, forced: bool, pc: Pc) returns (s: State)
    requires Reachable(s0) && OnlyIdle(s0, ControlBlock(AGENT, IDLE, forced, []), pc)
    ensures Reachable(s) && SecondAt(s, forced, pc)
  {
    hide Reachable;
    s := s0;
    ReachableStep(s, Ask(1, AGENT));
    s := Apply(s, Ask(1, AGENT));
    ReachableStep(s, CheckQuiesced(1));
    s := Apply(s, CheckQuiesced(1));
    assert IsFirstIdle(s.m, 1);
    ReachableStep(s, TakeOrCreate(1, 1));
    assert s.m.idle[1].events + [1] == [1];
    s := Apply(s, TakeOrCreate(1, 1));
  }

  /** The wait times out with the ticket in the queue. */
  lemma SecondMissed(s0: State, forced: bool) returns (s: State)
    requires Reachable(s0) && SecondAt(s0, forced, InWait)
    ensures Reachable(s) && SecondAt(s, forced, TimedOut)
  {
    hide Reachable;
    s := s0;
    ReachableStep(s, TimeOut(1));
    assert Pending(Block(s.m, 1)) == {1};
    s := Apply(s, TimeOut(1));
  }

  lemma SecondForced(s0: State) returns (s: State)
    requires Reachable(s0) && SecondAt(s0, false, TimedOut)
    ensures Reachable(s) && SecondAt(s, true, TimedOut)
  {
    hide Reachable;
    s := s0;
    ReachableStep(s, ForceOne(1));
    assert Pending(Block(s.m, 1)) == {1};
    s := Apply(s, ForceOne(1));
  }

  lemma SecondFlagged(s0: State) returns (s: State)
    requires Reachable(s0) && SecondAt(s0, true, TimedOut)
    ensures Reachable(s) && SecondAt(s, true, Returning(true))
  {
    hide Reachable;
    s := s0;
    ReachableStep(s, CheckForced(1));
    s := Apply(s, CheckForced(1));
  }

  /** A successful start, its EDU gone, its work neither run nor ever to be run. */
  ghost predicate WorkLost(s: State) {
    Reachable(s) && s.m.run == map[] && s.m.idle == map[]
    && 1 in s.calls && s.calls[1].Started? && 1 !in s.history.ran && forall e :: !CanRun(s, e, 1)
  }

  /** The thread of EDU 1 destroys it, and with it the ticket that is lost. */
  lemma SecondLost(s0: State) returns (s: State)
    requires Reachable(s0) && SecondAt(s0, true, Returning(true))
    ensures WorkLost(s)
  {
    hide Reachable, CanRun;
    s := s0;
    ReachableStep(s, LookUp(1));
    s := Apply(s, LookUp(1));
    ReachableStep(s, CheckDown(1));
    s := Apply(s, CheckDown(1));
    ReachableStep(s, Destroy(1));
    s := Apply(s, Destroy(1));
    LostNeverRuns(s, 1);
  }

  /**
   Losing work is real: a call of `startEDU` that succeeds, and whose work no thread will ever run,
   because the agent's thread destroys the EDU it was handed to. In one run the thread has read the
   force flag before the start, in one its wait times out with the event already in the queue, and
   in one the force comes behind such a timeout.
   */
  lemma WorkCanBeLost() returns (s: State, t: State, u: State)
    ensures WorkLost(s) && WorkLost(t) && WorkLost(u)
  {
    hide Reachable, WorkLost, OnlyIdle, OnlyRunning, SecondAt, Initial;
    var a := FirstCreated();
    var b := FirstPopped(a);
    var c := FirstServed(b);
    c := FirstSized(c);
    var d := FirstPooled(c);
    var waiting := FirstWaiting(d);
    var idle := IdleForced(waiting);
    var forced := FirstForced(idle);
    var taken := SecondTaken(forced, true, Returning(true));
    s := SecondLost(taken);
    var posted := SecondTaken(idle, true, InWait);
    var missed := SecondMissed(posted, true);
    var flagged := SecondFlagged(missed);
    t := SecondLost(flagged);
    posted := SecondTaken(waiting, false, InWait);
    missed := SecondMissed(posted, false);
    var late := SecondForced(missed);
    flagged := SecondFlagged(late);
    u := SecondLost(flagged);
  }

  lemma LostNeverRuns(s: State, t: Ticket)
    requires Reachable(s) && t in s.history.lost
    ensures t !in s.history.ran && forall e :: !CanRun(s, e, t)
  {
    hide CanRun, MayServe, HasRun;
    var ss: seq<State>, steps: seq<Step> :| IsRun(ss, steps) && ss[|steps|] == s;
    ReachableTickets(ss, steps, |steps|);
    DeliveredUnlessLost(ss, steps, |steps|, t);
  }

  // ---- Status changes ----

  predicate Edge(was: Status, now: Status) {
    || was == now
    || (was, now) == (CREATING, WAITING)
    || (was, now) == (WAITING, RUNNING)
    || (was, now) == (RUNNING, WAITING)
    || (was, now) == (WAITING, IDLE)
    || (was, now) == (IDLE, WAITING)
  }

  /** One step moves the status of EDU `id` along an edge that really occurs. */
  predicate EdgeStep(s: State, step: Step, t: State, id: EduId) {
    && (Known(s.m, id) && Known(t.m, id) ==> Edge(Block(s.m, id).status, Block(t.m, id).status))
    && (Known(s.m, id) && !Known(t.m, id) ==> step == Destroy(id) && Block(s.m, id).status in {WAITING, IDLE})
    && (!Known(s.m, id) && Known(t.m, id) ==> step.Create? && id == s.m.nextId && Block(t.m, id).status == CREATING)
  }

  predicate EntryStep(step: Step) {
    || step.Prepare? || step.CallEntry? || step.EntryActivates? || step.EntryWaits?
    || step.EntryReturns? || step.WaitAgain?
  }

  lemma EntryEdges(s: State, step: Step, id: EduId)
    requires QueuesOk(s.m, s.threads) && Enabled(s, step) && EntryStep(step)
    ensures EdgeStep(s, step, Apply(s, step), id)
  {
    assert step.id in s.m.run;
  }

  lemma WaitEdges(s: State, step: Step, id: EduId)
    requires QueuesOk(s.m, s.threads) && Enabled(s, step) && OwnStep(step) && !EntryStep(step)
    ensures EdgeStep(s, step, Apply(s, step), id)
  {
  }

  lemma DestroyEdges(s: State, step: Step, id: EduId)
    requires Inv(s) && Enabled(s, step) && step.Destroy?
    ensures EdgeStep(s, step, Apply(s, step), id)
  {
    assert Known(s.m, step.id) && Block(s.m, step.id).status in {WAITING, IDLE};
    DestroyQueues(s.m, s.threads, step.id);
    DestroyedBlocks(s.m, step.id, id);
    assert Apply(s, step).m == Destroyed(s.m, step.id).0;
    hide QueuesOk, PoolOk, Destroyed, Known, Block, Apply, Enabled;
  }

  lemma DestroyedBlocks(m: Manager, x: EduId, id: EduId)
    requires Destroyed(m, x).1 == OK && m.run.Keys !! m.idle.Keys
    ensures var n := Destroyed(m, x).0;
            && Known(m, x) && !Known(n, x) && Block(m, x).status in {WAITING, IDLE, CREATING}
            && (id != x ==> (Known(n, id) <==> Known(m, id)) && (Known(m, id) ==> Block(n, id) == Block(m, id)))
  {
  }

  lemma PoolEdges(s: State, step: Step, id: EduId)
    requires Inv(s) && Enabled(s, step) && step.Deactivate?
    ensures EdgeStep(s, step, Apply(s, step), id)
  {
    assert step.id in s.m.run && RunOk(s.m.run[step.id], s.threads[step.id]);
    hide QueuesOk, PoolOk;
  }

  lemma TakeEdges(s: State, step: Step, id: EduId)
    requires Inv(s) && Enabled(s, step) && step.TakeOrCreate?
    ensures EdgeStep(s, step, Apply(s, step), id)
  {
    if !NothingToTake(s.m, s.calls[step.ticket].kind) {
      assert IdleOk(s.m.idle[step.id], s.threads[step.id]) && step.id !in s.m.run;
      hide QueuesOk, PoolOk;
    }
  }

  lemma CreateEdges(s: State, step: Step, id: EduId)
    requires Inv(s) && Enabled(s, step) && step.Create?
    ensures EdgeStep(s, step, Apply(s, step), id)
  {
    CreateKeepsInv(s, step.ticket, step.threadStarts);
  }

  lemma FlagEdges(s: State, step: Step, id: EduId)
    requires Enabled(s, step)
    requires step.Ask? || step.CheckQuiesced? || step.CheckAgain? || step.Quiesce? || step.ShutDown?
    ensures EdgeStep(s, step, Apply(s, step), id)
  {
  }

  lemma ForceEdges(s: State, step: Step, id: EduId)
    requires Enabled(s, step) && (step.ForceAll? || step.ForceOne?)
    ensures EdgeStep(s, step, Apply(s, step), id)
  {
  }

  /**
   The status changes of an EDU over every run: of the published table only WAITING to RUNNING,
   RUNNING to WAITING, WAITING to IDLE and the destruction of a WAITING or IDLE EDU occur, and
   beside them CREATING to WAITING and IDLE to WAITING, which the table lacks.
   */
  lemma StatusEdges(ss: seq<State>, steps: seq<Step>, i: nat, id: EduId)
    requires IsRun(ss, steps) && i < |steps|
    ensures EdgeStep(ss[i], steps[i], ss[i + 1], id)
  {
    hide Apply, Enabled, EdgeStep;
    ReachableInv(ss, steps, i);
    var s, step := ss[i], steps[i];
    if EntryStep(step) {
      EntryEdges(s, step, id);
    } else if OwnStep(step) {
      WaitEdges(s, step, id);
    } else if step.Destroy? {
      DestroyEdges(s, step, id);
    } else if step.Deactivate? {
      PoolEdges(s, step, id);
    } else if step.TakeOrCreate? {
      TakeEdges(s, step, id);
    } else if step.Create? {
      CreateEdges(s, step, id);
    } else if step.ForceAll? || step.ForceOne? {
      ForceEdges(s, step, id);
    } else {
      FlagEdges(s, step, id);
    }
  }
}
