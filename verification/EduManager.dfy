/**
 The EDU manager: two queues of control blocks, and one operation per section under its latch.
 Control blocks are values in the queues; a ticket stands for the argument of one `startEDU` call.
 */
module EduManager {

  datatype EduType = TCPLISTENER | AGENT | UNKNOWN

  datatype Status = CREATING | RUNNING | WAITING | IDLE

  datatype Code = OK | SYS | OOM | QUIESCED | INVALIDARG | INVAL_STATUS

  type EduId = nat
  type Ticket = nat

  /** `events` holds the arguments of the RESUME events still to be taken. */
  datatype ControlBlock = ControlBlock(kind: EduType, status: Status, forced: bool, events: seq<Ticket>)

  datatype Manager = Manager(
    run: map<EduId, ControlBlock>,
    idle: map<EduId, ControlBlock>,
    nextId: EduId,
    quiesced: bool,
    destroyed: bool)

  predicate IsPoolable(kind: EduType) {
    kind == AGENT
  }

  function Size(m: Manager): nat {
    |m.run| + |m.idle|
  }

  // ---- What each latch section does to the manager ----

  function Activated(m: Manager, id: EduId): (Manager, Code) {
    if id in m.idle then
      var cb := m.idle[id];
      if cb.status == RUNNING then (m, OK)
      else if cb.status != IDLE then (m, INVAL_STATUS)
      else (m.(idle := m.idle - {id}, run := m.run[id := cb.(status := RUNNING)]), OK)
    else if id in m.run then
      var cb := m.run[id];
      if cb.status == RUNNING then (m, OK)
      else if cb.status != WAITING && cb.status != CREATING then (m, INVAL_STATUS)
      else (m.(run := m.run[id := cb.(status := RUNNING)]), OK)
    else
      (m, SYS)
  }

  function Waited(m: Manager, id: EduId): (Manager, Code) {
    if id !in m.run then (m, SYS)
    else if m.run[id].status == WAITING then (m, OK)
    else if m.run[id].status != RUNNING then (m, INVAL_STATUS)
    else (m.(run := m.run[id := m.run[id].(status := WAITING)]), OK)
  }

  function Destroyed(m: Manager, id: EduId): (Manager, Code) {
    if id in m.run then
      if m.run[id].status != WAITING && m.run[id].status != CREATING then (m, INVAL_STATUS)
      else (m.(run := m.run - {id}), OK)
    else if id in m.idle then
      if m.idle[id].status != IDLE then (m, INVAL_STATUS)
      else (m.(idle := m.idle - {id}), OK)
    else
      (m, SYS)
  }

  function Deactivated(m: Manager, id: EduId): (Manager, Code) {
    if id in m.run then
      var cb := m.run[id];
      if cb.status == IDLE then (m, OK)
      else if cb.status != WAITING && cb.status != CREATING then (m, INVAL_STATUS)
      else (m.(run := m.run - {id}, idle := m.idle[id := cb.(status := IDLE)]), OK)
    else if id in m.idle then (m, OK)
    else (m, SYS)
  }

  /** The idle EDU `startEDU` takes: the least id of status IDLE. */
  predicate IsFirstIdle(m: Manager, id: EduId) {
    id in m.idle && m.idle[id].status == IDLE && forall k :: k in m.idle && k < id ==> m.idle[k].status != IDLE
  }

  /** Moved to the run queue as a WAITING EDU of the asked type, with its RESUME posted. */
  function Taken(m: Manager, id: EduId, kind: EduType, ticket: Ticket): Manager
    requires id in m.idle
  {
    var cb := m.idle[id];
    m.(idle := m.idle - {id},
       run := m.run[id := cb.(kind := kind, status := WAITING, events := cb.events + [ticket])])
  }

  function Created(m: Manager, kind: EduType, ticket: Ticket): (Manager, Code) {
    if m.nextId in m.run || m.nextId in m.idle then (m, SYS)
    else (m.(run := m.run[m.nextId := ControlBlock(kind, CREATING, false, [ticket])], nextId := m.nextId + 1), OK)
  }

  function AllForced(q: map<EduId, ControlBlock>): map<EduId, ControlBlock> {
    map id | id in q :: q[id].(forced := true)
  }

  function OneForced(m: Manager, id: EduId): Manager {
    if id in m.run then m.(run := m.run[id := m.run[id].(forced := true)])
    else if id in m.idle then m.(idle := m.idle[id := m.idle[id].(forced := true)])
    else m
  }

  // ---- The manager as the source has it: an object whose methods update its queues ----

  /** All EDUs but `id` are where they were and as they were. */
  ghost predicate OthersKept(m: Manager, n: Manager, id: EduId) {
    && n.nextId == m.nextId && n.quiesced == m.quiesced && n.destroyed == m.destroyed
    && (forall k :: k != id ==> (k in n.run <==> k in m.run) && (k in n.idle <==> k in m.idle))
    && (forall k :: k != id && k in m.run ==> n.run[k] == m.run[k])
    && (forall k :: k != id && k in m.idle ==> n.idle[k] == m.idle[k])
  }

  /** `startEDU` will reuse a pooled agent. */
  predicate CanTake(m: Manager, kind: EduType) {
    IsPoolable(kind) && exists k :: k in m.idle && m.idle[k].status == IDLE
  }

  class PmdEduMgr {
    var runQueue: map<EduId, ControlBlock>
    var idleQueue: map<EduId, ControlBlock>
    var nextId: EduId
    var isQuiesced: bool
    var isDestroyed: bool

    ghost function State(): Manager
      reads this
    {
      Manager(runQueue, idleQueue, nextId, isQuiesced, isDestroyed)
    }

    /** No EDU is in both queues, and all ids have been handed out. */
    ghost predicate Valid()
      reads this
    {
      && runQueue.Keys !! idleQueue.Keys
      && (forall k :: k in runQueue ==> k < nextId) && (forall k :: k in idleQueue ==> k < nextId)
    }

    /** The control block of an EDU that is in one of the queues. */
    ghost function Block(id: EduId): ControlBlock
      requires id in runQueue || id in idleQueue
      reads this
    {
      if id in runQueue then runQueue[id] else idleQueue[id]
    }

    constructor ()
      ensures Valid() && State() == Manager(map[], map[], 1, false, false)
    {
      runQueue, idleQueue, nextId, isQuiesced, isDestroyed := map[], map[], 1, false, false;
    }

    /** On success the EDU is RUNNING; one that was pooled has come back to the run queue. */
    method ActivateEdu(id: EduId) returns (rc: Code)
      requires Valid()
      modifies this
      ensures Valid() && OthersKept(old(State()), State(), id)
      ensures rc == SYS <==> id !in old(runQueue) && id !in old(idleQueue)
      ensures rc == INVAL_STATUS <==>
                || (id in old(runQueue) && old(runQueue)[id].status == IDLE)
                || (id in old(idleQueue) && old(idleQueue)[id].status in {CREATING, WAITING})
      ensures rc != OK ==> rc in {SYS, INVAL_STATUS} && State() == old(State())
      ensures rc == OK ==>
                && (id in runQueue || id in idleQueue)
                && Block(id) == old(Block(id)).(status := RUNNING)
                && (id in runQueue <==> id in old(runQueue) || old(idleQueue)[id].status == IDLE)
      ensures (State(), rc) == Activated(old(State()), id)
    {
      if id !in idleQueue {
        if id !in runQueue {
          return SYS;
        }
        var status := runQueue[id].status;
        if status == RUNNING {
          return OK;
        }
        if status != WAITING && status != CREATING {
          return INVAL_STATUS;
        }
        runQueue := runQueue[id := runQueue[id].(status := RUNNING)];
        return OK;
      }
      var cb := idleQueue[id];
      if cb.status == RUNNING {
        return OK;
      }
      if cb.status != IDLE {
        return INVAL_STATUS;
      }
      idleQueue := idleQueue - {id};
      runQueue := runQueue[id := cb.(status := RUNNING)];
      rc := OK;
    }

    /** On success the EDU is WAITING on the run queue, where it has been before. */
    method WaitEdu(id: EduId) returns (rc: Code)
      requires Valid()
      modifies this
      ensures Valid() && OthersKept(old(State()), State(), id) && idleQueue == old(idleQueue)
      ensures rc == SYS <==> id !in old(runQueue)
      ensures rc == OK <==> id in old(runQueue) && old(runQueue)[id].status in {WAITING, RUNNING}
      ensures rc != OK ==> rc in {SYS, INVAL_STATUS} && State() == old(State())
      ensures rc == OK ==> id in runQueue && runQueue[id] == old(runQueue)[id].(status := WAITING)
      ensures (State(), rc) == Waited(old(State()), id)
    {
      if id !in runQueue {
        return SYS;
      }
      if runQueue[id].status == WAITING {
        return OK;
      }
      if runQueue[id].status != RUNNING {
        return INVAL_STATUS;
      }
      runQueue := runQueue[id := runQueue[id].(status := WAITING)];
      rc := OK;
    }

    /** On success the EDU is in neither queue. */
    method DestroyEdu(id: EduId) returns (rc: Code)
      requires Valid()
      modifies this
      ensures Valid() && OthersKept(old(State()), State(), id)
      ensures rc == SYS <==> id !in old(runQueue) && id !in old(idleQueue)
      ensures rc == OK <==>
                || (id in old(runQueue) && old(runQueue)[id].status in {WAITING, CREATING})
                || (id in old(idleQueue) && old(idleQueue)[id].status == IDLE)
      ensures rc != OK ==> rc in {SYS, INVAL_STATUS} && State() == old(State())
      ensures rc == OK ==> id !in runQueue && id !in idleQueue
      ensures (State(), rc) == Destroyed(old(State()), id)
    {
      if id !in runQueue {
        if id !in idleQueue {
          return SYS;
        }
        if idleQueue[id].status != IDLE {
          return INVAL_STATUS;
        }
        idleQueue := idleQueue - {id};
      } else {
        var status := runQueue[id].status;
        if status != WAITING && status != CREATING {
          return INVAL_STATUS;
        }
        runQueue := runQueue - {id};
      }
      rc := OK;
    }

    /** On success the EDU is pooled as IDLE, unless it was IDLE on the run queue or pooled already. */
    method DeactivateEdu(id: EduId) returns (rc: Code)
      requires Valid()
      modifies this
      ensures Valid() && OthersKept(old(State()), State(), id)
      ensures rc == SYS <==> id !in old(runQueue) && id !in old(idleQueue)
      ensures rc == INVAL_STATUS <==> id in old(runQueue) && old(runQueue)[id].status == RUNNING
      ensures rc != OK ==> rc in {SYS, INVAL_STATUS} && State() == old(State())
      ensures rc == OK ==>
                && (id in runQueue || id in idleQueue)
                && (id in idleQueue <==> id in old(idleQueue) || old(runQueue)[id].status != IDLE)
                && Block(id) == if id in old(idleQueue) then old(Block(id)) else old(Block(id)).(status := IDLE)
      ensures (State(), rc) == Deactivated(old(State()), id)
    {
      if id !in runQueue {
        if id in idleQueue {
          return OK;
        }
        return SYS;
      }
      var cb := runQueue[id];
      if cb.status == IDLE {
        return OK;
      }
      if cb.status != WAITING && cb.status != CREATING {
        return INVAL_STATUS;
      }
      runQueue := runQueue - {id};
      idleQueue := idleQueue[id := cb.(status := IDLE)];
      rc := OK;
    }

    /**
     `returnEDU` when nothing else runs between its latch sections. What comes back is pooled only
     if it is an agent, not forced, the manager is up and at most `maxPool` EDUs exist, and gone
     otherwise; the caller's thread ends exactly when its EDU is in neither queue.
     */
    method ReturnEdu(id: EduId, force: bool, maxPool: nat) returns (rc: Code, destroyed: bool)
      requires Valid()
      modifies this
      ensures Valid() && OthersKept(old(State()), State(), id)
      ensures rc != OK ==> State() == old(State())
      ensures destroyed <==> id !in runQueue && id !in idleQueue && (id in old(runQueue) || id in old(idleQueue))
      ensures id in old(runQueue) && old(runQueue)[id].status in {WAITING, CREATING} ==>
                var cb := old(runQueue)[id];
                var pool := IsPoolable(cb.kind) && !force && !old(isDestroyed) && old(Size(State())) <= maxPool;
                rc == OK && destroyed == !pool && (pool ==> id in idleQueue && idleQueue[id] == cb.(status := IDLE))
      ensures id in idleQueue && id !in old(idleQueue) ==> |idleQueue| <= maxPool
      ensures if id !in old(runQueue) && id !in old(idleQueue) then rc == SYS
              else
                var pool := IsPoolable(old(Block(id)).kind) && !force && !old(isDestroyed)
                    && old(Size(State())) <= maxPool;
                (State(), rc) == if pool then Deactivated(old(State()), id) else Destroyed(old(State()), id)
    {
      var kind;
      if id in runQueue {
        kind := runQueue[id].kind;
      } else if id in idleQueue {
        kind := idleQueue[id].kind;
      } else {
        return SYS, false;
      }
      ghost var was := State();
      if !IsPoolable(kind) || force || isDestroyed || |runQueue| + |idleQueue| > maxPool {
        rc := DestroyEdu(id);
        destroyed := rc == OK || rc == SYS;
      } else {
        rc := DeactivateEdu(id);
        destroyed := rc == SYS;
        PooledSize(was, id);
      }
    }

    /** The walk over the idle queue in id order. */
    method FirstIdle() returns (found: bool, id: EduId)
      requires Valid()
      ensures found ==> IsFirstIdle(State(), id)
      ensures !found ==> forall k :: k in idleQueue ==> idleQueue[k].status != IDLE
    {
      id := 0;
      while id < nextId
        invariant forall k :: k in idleQueue && k < id ==> idleQueue[k].status != IDLE
      {
        if id in idleQueue && idleQueue[id].status == IDLE {
          return true, id;
        }
        id := id + 1;
      }
      found := false;
    }

    /**
     `startEDU`, again without interference: the first idle agent is reused, or an EDU with the next
     id created; `memory` and `threadStarts` say whether control block and thread can be had. A
     thread that fails to start has used up its id.
     */
    method StartEdu(kind: EduType, ticket: Ticket, memory: bool, threadStarts: bool) returns (rc: Code, id: EduId)
      requires Valid()
      modifies this
      ensures Valid()
      ensures rc == if old(isQuiesced) then QUIESCED
                    else if old(CanTake(State(), kind)) then OK
                    else if kind == UNKNOWN then INVALIDARG
                    else if !memory then OOM
                    else if !threadStarts then SYS
                    else OK
      ensures rc == OK ==>
                && id in runQueue && id !in old(runQueue) && id !in idleQueue
                && OthersKept(old(State()), State().(nextId := old(nextId)), id)
                && (if old(CanTake(State(), kind))
                    then
                      && IsFirstIdle(old(State()), id)
                      && runQueue[id] == old(idleQueue)[id].(kind := kind, status := WAITING,
                                                             events := old(idleQueue)[id].events + [ticket])
                    else id == old(nextId) && runQueue[id] == ControlBlock(kind, CREATING, false, [ticket]))
      ensures rc == OK ==>
                State() == if old(CanTake(State(), kind)) then Taken(old(State()), id, kind, ticket)
                           else Created(old(State()), kind, ticket).0
      ensures rc != OK ==> State() == old(State()).(nextId := nextId)
      ensures nextId == old(nextId)
                + if !old(isQuiesced) && !old(CanTake(State(), kind)) && kind != UNKNOWN && memory then 1 else 0
    {
      id := 0;
      if isQuiesced {
        return QUIESCED, id;
      }
      if idleQueue != map[] && IsPoolable(kind) {
        var found, first := FirstIdle();
        if found {
          var cb := idleQueue[first];
          idleQueue := idleQueue - {first};
          runQueue := runQueue[first := cb.(kind := kind, status := WAITING, events := cb.events + [ticket])];
          return OK, first;
        }
      }
      rc, id := CreateNewEdu(kind, ticket, memory, threadStarts);
    }

    /** `_createNewEDU`. */
    method CreateNewEdu(kind: EduType, ticket: Ticket, memory: bool, threadStarts: bool) returns (rc: Code, id: EduId)
      requires Valid()
      modifies this
      ensures Valid() && idleQueue == old(idleQueue) && isQuiesced == old(isQuiesced) && isDestroyed == old(isDestroyed)
      ensures rc == if old(isQuiesced) then QUIESCED
                    else if kind == UNKNOWN then INVALIDARG
                    else if !memory then OOM
                    else if !threadStarts then SYS
                    else OK
      ensures rc == OK ==>
          id == old(nextId) && runQueue == old(runQueue)[id := ControlBlock(kind, CREATING, false, [ticket])]
      ensures rc != OK ==> runQueue == old(runQueue)
      ensures nextId == old(nextId) + if rc == OK || rc == SYS then 1 else 0
    {
      id := 0;
      if isQuiesced {
        return QUIESCED, id;
      }
      if kind == UNKNOWN {
        return INVALIDARG, id;
      }
      if !memory {
        return OOM, id;
      }
      if nextId in runQueue || nextId in idleQueue {
        return SYS, id;
      }
      id := nextId;
      ghost var was := runQueue;
      runQueue := runQueue[nextId := ControlBlock(kind, CREATING, false, [])];
      nextId := nextId + 1;
      if !threadStarts {
        runQueue := runQueue - {id};
        assert runQueue == was;
        return SYS, id;
      }
      runQueue := runQueue[id := runQueue[id].(events := [ticket])];
      rc := OK;
    }

    /** The loops of `_forceEDUs` for user EDUs: afterwards every EDU is forced, and nothing else has changed. */
    method ForceEdus()
      requires Valid()
      modifies this
      ensures Valid() && runQueue.Keys == old(runQueue).Keys && idleQueue.Keys == old(idleQueue).Keys
      ensures forall id :: id in runQueue || id in idleQueue ==> Block(id) == old(Block(id)).(forced := true)
      ensures nextId == old(nextId) && isQuiesced == old(isQuiesced) && isDestroyed == old(isDestroyed)
      ensures runQueue == AllForced(old(runQueue)) && idleQueue == AllForced(old(idleQueue))
    {
      runQueue := ForceQueue(runQueue);
      idleQueue := ForceQueue(idleQueue);
    }

    static method ForceQueue(q: map<EduId, ControlBlock>) returns (r: map<EduId, ControlBlock>)
      ensures r == AllForced(q)
    {
      r := q;
      var left := q.Keys;
      while left != {}
        invariant left <= q.Keys == r.Keys
        invariant forall id :: id in q ==> r[id] == if id in left then q[id] else q[id].(forced := true)
        decreases |left|
      {
        var it: EduId :| it in left;
        r := r[it := r[it].(forced := true)];
        left := left - {it};
      }
    }
  }

  lemma PooledSize(m: Manager, id: EduId)
    ensures var n := Deactivated(m, id).0; id in n.idle && id !in m.idle ==> |n.idle| <= Size(m)
  {
    var n := Deactivated(m, id).0;
    if id in n.idle && id !in m.idle {
      assert n.idle.Keys == m.idle.Keys + {id} && id in m.run.Keys;
      hide Deactivated;
      assert |n.idle.Keys| == |m.idle.Keys| + 1;
      assert |m.run.Keys - {id}| == |m.run.Keys| - 1;
    }
  }
}
