/**
 The task manager of task/task.c: a fixed table of task control blocks,
 one idle task per core, a ready list per core and one sleep list. The
 intrusive lists of the source are sequences of task references here
 (lib/list.c is not part of this model); the current core is a parameter.
 Context switching, the page tables and the trap frames are left out: a
 task is its identifier, its state and its two tick counters.
 */
module Tasks {
  import opened Util
  import opened CTypes

  /** MAX_TASKS: the number of task control blocks. */
  const MaxTasks := 64
  /** SYS_TASK_TICK: a task's time slice in timer ticks. */
  const SysTaskTick := 10

  /** task_state_t; `Zeroed` is the all-zero state of a TCB that was never used or was freed. */
  datatype TaskState = Zeroed | Create | Ready | Running | Waiting | WaitIrq

  /** The part of tcb_t the scheduler reads: `task_id`, `state`, `counter`, `sleep_ticks` (all 32-bit). */
  datatype Tcb = Tcb(id: i32, state: TaskState, counter: i32, sleepTicks: i32)

  /** A task: a slot of the TCB table or the idle task of a core. */
  datatype TaskRef = Slot(i: nat) | Idle(core: nat)

  /**
   task_manager_t with the table next to it. `taskCount` is alloc_tcb's
   static counter, a `uint32_t` that starts at 1.
   */
  datatype Manager = Manager(tasks: seq<Tcb>, idle: seq<Tcb>, ready: seq<seq<TaskRef>>,
                             sleep: seq<TaskRef>, taskCount: u32)

  predicate ValidRef(m: Manager, t: TaskRef) {
    match t
    case Slot(i) => i < |m.tasks|
    case Idle(c) => c < |m.idle|
  }

  predicate RefsOk(m: Manager, s: seq<TaskRef>) {
    forall k :: 0 <= k < |s| ==> ValidRef(m, s[k])
  }

  /** The same number of slots, idle tasks and ready lists. */
  predicate SameShape(a: Manager, b: Manager) {
    |a.tasks| == |b.tasks| && |a.idle| == |b.idle| && |a.ready| == |b.ready|
  }

  lemma ShapeKeepsRefs(a: Manager, b: Manager)
    requires SameShape(a, b)
    ensures forall u :: ValidRef(a, u) <==> ValidRef(b, u)
    ensures forall s :: RefsOk(a, s) <==> RefsOk(b, s)
  {
  }

  /**
   The table has MAX_TASKS entries, there is a ready list per core, every
   listed task exists, and no core's idle task sits on that core's ready
   list (the only way onto it refuses the idle task).
   */
  predicate Wf(m: Manager) {
    |m.tasks| == MaxTasks && |m.idle| == |m.ready| > 0
    && (forall c :: 0 <= c < |m.ready| ==> RefsOk(m, m.ready[c]) && Idle(c) !in m.ready[c])
    && RefsOk(m, m.sleep)
  }

  function Get(m: Manager, t: TaskRef): Tcb
    requires ValidRef(m, t)
  {
    match t
    case Slot(i) => m.tasks[i]
    case Idle(c) => m.idle[c]
  }

  /** Overwrites one task's TCB and nothing else. */
  function Put(m: Manager, t: TaskRef, tcb: Tcb): (r: Manager)
    requires ValidRef(m, t)
    ensures |r.tasks| == |m.tasks| && |r.idle| == |m.idle|
    ensures Get(r, t) == tcb
    ensures forall u :: ValidRef(m, u) && u != t ==> Get(r, u) == Get(m, u)
    ensures r.ready == m.ready && r.sleep == m.sleep && r.taskCount == m.taskCount
  {
    match t
    case Slot(i) => m.(tasks := m.tasks[i := tcb])
    case Idle(c) => m.(idle := m.idle[c := tcb])
  }

  lemma PutWf(m: Manager, t: TaskRef, tcb: Tcb)
    requires Wf(m) && ValidRef(m, t)
    ensures Wf(Put(m, t, tcb))
  {
    var r := Put(m, t, tcb);
    forall c | 0 <= c < |r.ready| ensures RefsOk(r, r.ready[c]) {
      assert RefsOk(m, m.ready[c]);
    }
  }

  // ---------------------------------------------------------------------
  // TCB allocation
  // ---------------------------------------------------------------------

  /** The scan of alloc_tcb from slot `from`: the first TCB whose id is 0. */
  function FirstFree(ts: seq<Tcb>, from: nat): (r: Option<nat>)
    requires from <= |ts|
    ensures r.None? <==> forall j :: from <= j < |ts| ==> ts[j].id != 0
    ensures r.Some? ==> (from <= r.value < |ts| && ts[r.value].id == 0
      && forall j :: from <= j < r.value ==> ts[j].id != 0)
    decreases |ts| - from
  {
    if from == |ts| then None
    else if ts[from].id == 0 then Some(from)
    else FirstFree(ts, from + 1)
  }

  /**
   alloc_tcb: the first slot whose id is 0 gets the counter's value as its
   id (converted to the signed `task_id`) and state CREATE, and the counter
   advances modulo 2^32; with no such slot nothing changes.
   */
  function AllocTcb(m: Manager): (r: (Option<nat>, Manager))
    requires Wf(m)
    ensures Wf(r.1)
    ensures r.0.None? <==> forall j :: 0 <= j < |m.tasks| ==> m.tasks[j].id != 0
    ensures r.0.None? ==> r.1 == m
    ensures r.0.Some? ==> (
      var i := r.0.value;
      i < MaxTasks && m.tasks[i].id == 0 && (forall j :: 0 <= j < i ==> m.tasks[j].id != 0)
      && r.1.tasks[i].id == AsI32(m.taskCount) && r.1.tasks[i].state == Create
      && r.1.taskCount == (m.taskCount + 1) % Word32
      && (forall j :: 0 <= j < |m.tasks| && j != i ==> r.1.tasks[j] == m.tasks[j])
      && r.1.idle == m.idle && r.1.ready == m.ready && r.1.sleep == m.sleep)
  {
    match FirstFree(m.tasks, 0)
    case None => (None, m)
    case Some(i) =>
      var tcb := m.tasks[i].(id := AsI32(m.taskCount), state := Create);
      var m1 := Put(m, Slot(i), tcb);
      PutWf(m, Slot(i), tcb);
      (Some(i), m1.(taskCount := (m.taskCount + 1) % Word32))
  }

  /**
   The identifiers in use are distinct and each lies between 1 and the
   counter: what alloc_tcb's ever-increasing counter is for.
   */
  predicate IdsFresh(m: Manager) {
    (forall i :: 0 <= i < |m.tasks| && m.tasks[i].id != 0 ==> 1 <= m.tasks[i].id < m.taskCount)
    && (forall i, j :: 0 <= i < j < |m.tasks| && m.tasks[i].id != 0 ==> m.tasks[i].id != m.tasks[j].id)
  }

  /**
   While the counter has not reached 2^31, allocation keeps identifiers
   fresh, and the slot it hands out is no longer free.
   */
  lemma AllocKeepsIdsFresh(m: Manager)
    requires Wf(m) && IdsFresh(m) && 1 <= m.taskCount < 0x8000_0000 - 1
    ensures IdsFresh(AllocTcb(m).1)
    ensures AllocTcb(m).0.Some? ==> AllocTcb(m).1.tasks[AllocTcb(m).0.value].id != 0
  {
    var (o, r) := AllocTcb(m);
    if o.Some? {
      var i := o.value;
      assert r.tasks[i].id == m.taskCount;
      assert r.taskCount == m.taskCount + 1;
      forall a, b | 0 <= a < b < |r.tasks| && r.tasks[a].id != 0
        ensures r.tasks[a].id != r.tasks[b].id
      {
        if a != i && b != i {
          assert r.tasks[a] == m.tasks[a] && r.tasks[b] == m.tasks[b];
        } else if a == i {
          assert r.tasks[b] == m.tasks[b];
          assert m.tasks[b].id != 0 ==> m.tasks[b].id < m.taskCount;
        } else {
          assert r.tasks[a] == m.tasks[a];
        }
      }
    }
  }

  /** Two allocations in a row hand out two different slots. */
  lemma AllocTwiceDistinct(m: Manager)
    requires Wf(m) && IdsFresh(m) && 1 <= m.taskCount < 0x8000_0000 - 1
    requires AllocTcb(m).0.Some?
    ensures var m1 := AllocTcb(m).1;
      AllocTcb(m1).0.Some? ==> AllocTcb(m1).0.value != AllocTcb(m).0.value
  {
    AllocKeepsIdsFresh(m);
  }

  /**
   Once the 32-bit counter has wrapped to 0, the slot handed out keeps id 0,
   still looks free, and the next allocation returns it again.
   */
  lemma CountWrapReusesSlot(m: Manager)
    requires Wf(m) && m.taskCount == 0 && AllocTcb(m).0.Some?
    ensures var (o, m1) := AllocTcb(m);
      m1.tasks[o.value].id == 0 && AllocTcb(m1).0 == o
  {
    var (o, m1) := AllocTcb(m);
    assert AsI32(0) == 0;
    var i := o.value;
    assert forall j :: 0 <= j < i ==> m1.tasks[j].id != 0;
  }

  /** free_tcb's last step: the TCB is zeroed, so its slot reads as free again. */
  function FreeTcb(m: Manager, i: nat, core: nat): (r: Manager)
    requires Wf(m) && i < MaxTasks && core < |m.ready|
    ensures Wf(r)
    ensures r.tasks[i] == Tcb(0, Zeroed, 0, 0)
    ensures forall j :: 0 <= j < |m.tasks| && j != i ==> r.tasks[j] == m.tasks[j]
    ensures |r.ready| == |m.ready| && r.ready[core] == RemoveFirst(m.ready[core], Slot(i))
  {
    var m1 := RemoveFromReady(m, core, Slot(i));
    PutWf(m1, Slot(i), Tcb(0, Zeroed, 0, 0));
    Put(m1, Slot(i), Tcb(0, Zeroed, 0, 0))
  }

  /** A freed slot is the one the next allocation takes when no earlier slot is free. */
  lemma FreeThenAlloc(m: Manager, i: nat, core: nat)
    requires Wf(m) && i < MaxTasks && core < |m.ready|
    requires forall j :: 0 <= j < i ==> m.tasks[j].id != 0
    ensures AllocTcb(FreeTcb(m, i, core)).0 == Some(i)
  {
    var r := FreeTcb(m, i, core);
    assert forall j :: 0 <= j < i ==> r.tasks[j].id != 0;
  }

  // ---------------------------------------------------------------------
  // Ready lists
  // ---------------------------------------------------------------------

  /** list_delete on a list holding `t` unlinks its first occurrence; a list without `t` is left alone. */
  function RemoveFirst(s: seq<TaskRef>, t: TaskRef): (r: seq<TaskRef>)
    ensures t !in s ==> r == s
    ensures t in s ==> r == s[..IndexOf(s, t)] + s[IndexOf(s, t) + 1..]
  {
    if |s| == 0 then []
    else if s[0] == t then s[1..]
    else
      RemoveFirstCons(s, t);
      [s[0]] + RemoveFirst(s[1..], t)
  }

  lemma RemoveFirstCons(s: seq<TaskRef>, t: TaskRef)
    requires |s| > 0 && s[0] != t
    ensures t !in s ==> t !in s[1..] && s == [s[0]] + s[1..]
    ensures t in s ==> (t in s[1..] && IndexOf(s, t) == IndexOf(s[1..], t) + 1
      && s[..IndexOf(s, t)] + s[IndexOf(s, t) + 1..]
         == [s[0]] + (s[1..][..IndexOf(s[1..], t)] + s[1..][IndexOf(s[1..], t) + 1..]))
  {
    if t in s {
      var k := IndexOf(s[1..], t);
      assert s[1..][k] == t;
      assert s[..k + 1] == [s[0]] + s[1..][..k];
      assert s[k + 2..] == s[1..][k + 1..];
    }
  }

  /** The tasks left by a removal are tasks of the list, and all of them but `t` are left. */
  lemma RemoveFirstMembers(s: seq<TaskRef>, t: TaskRef)
    ensures forall x :: x in RemoveFirst(s, t) ==> x in s
    ensures forall x :: x in s && x != t ==> x in RemoveFirst(s, t)
  {
    if t in s {
      var k := IndexOf(s, t);
      assert s == s[..k] + [t] + s[k + 1..];
    }
  }

  lemma RemoveKeepsRefs(m: Manager, s: seq<TaskRef>, t: TaskRef)
    requires RefsOk(m, s)
    ensures RefsOk(m, RemoveFirst(s, t))
  {
    var r := RemoveFirst(s, t);
    if t in s {
      var k := IndexOf(s, t);
      forall j | 0 <= j < |r| ensures ValidRef(m, r[j]) {
        if j < k { assert r[j] == s[j]; } else { assert r[j] == s[j + 1]; }
      }
    }
  }

  /** Removing from a list without repeats leaves one without repeats and without `t`. */
  lemma RemoveFirstDistinct(s: seq<TaskRef>, t: TaskRef)
    requires Distinct(s)
    ensures Distinct(RemoveFirst(s, t)) && t !in RemoveFirst(s, t)
  {
    var r := RemoveFirst(s, t);
    if t in s {
      var k := IndexOf(s, t);
      forall a, b | 0 <= a < b < |r| ensures r[a] != r[b] {
        var a' := if a < k then a else a + 1;
        var b' := if b < k then b else b + 1;
        assert r[a] == s[a'] && r[b] == s[b'];
      }
      forall a | 0 <= a < |r| ensures r[a] != t {
        var a' := if a < k then a else a + 1;
        assert r[a] == s[a'];
      }
    }
  }

  /**
   task_add_to_readylist_tail on `core`: any task but that core's idle task
   goes to the end of the core's ready list and becomes READY.
   */
  function AddReadyTail(m: Manager, core: nat, t: TaskRef): (r: Manager)
    requires Wf(m) && core < |m.ready| && ValidRef(m, t)
    ensures Wf(r)
    ensures t == Idle(core) ==> r == m
    ensures t != Idle(core) ==>
      r.ready == m.ready[core := m.ready[core] + [t]] && Get(r, t) == Get(m, t).(state := Ready)
      && (forall u :: ValidRef(m, u) && u != t ==> Get(r, u) == Get(m, u))
      && r.sleep == m.sleep && r.taskCount == m.taskCount
  {
    if t == Idle(core) then m
    else
      var m1 := m.(ready := m.ready[core := m.ready[core] + [t]]);
      assert forall c :: 0 <= c < |m1.ready| && c != core ==> m1.ready[c] == m.ready[c];
      assert RefsOk(m, m.ready[core]);
      PutWf(m1, t, Get(m, t).(state := Ready));
      Put(m1, t, Get(m, t).(state := Ready))
  }

  /** The outcome of a call that can index past a per-core array. */
  datatype Remote = Done(m: Manager) | OutOfBounds

  /**
   task_add_to_readylist_tail_remote as written: a core id of SMP_NUM or
   more is logged as an error, and the function goes on to read
   `idle_task[core_id]` and insert into `ready_list[core_id]`, past both
   arrays.
   */
  function AddReadyTailRemoteAsWritten(m: Manager, t: TaskRef, core: nat): (r: Remote)
    requires Wf(m) && ValidRef(m, t)
    ensures r.OutOfBounds? <==> core >= |m.ready|
    ensures r.Done? ==> r.m == AddReadyTail(m, core, t)
  {
    if core >= |m.ready| then OutOfBounds else Done(AddReadyTail(m, core, t))
  }

  /** A task sent to core SMP_NUM reaches memory past the per-core arrays. */
  lemma RemoteBadCoreOverruns(m: Manager, t: TaskRef)
    requires Wf(m) && ValidRef(m, t)
    ensures AddReadyTailRemoteAsWritten(m, t, |m.ready|).OutOfBounds?
  {
  }

  /** task_add_to_readylist_tail_remote as intended: a bad core id is reported and nothing changes. */
  function AddReadyTailRemote(m: Manager, t: TaskRef, core: nat): (r: Manager)
    requires Wf(m) && ValidRef(m, t)
    ensures Wf(r) && |r.ready| == |m.ready| && ValidRef(r, t)
    ensures core >= |m.ready| ==> r == m
    ensures core < |m.ready| && t != Idle(core) ==>
      r.ready[core] == m.ready[core] + [t] && Get(r, t).state == Ready
    ensures core < |m.ready| ==> AddReadyTailRemoteAsWritten(m, t, core) == Done(r)
  {
    if core >= |m.ready| then m else AddReadyTail(m, core, t)
  }

  /** task_remove_from_readylist on `core`: any task but that core's idle task leaves the core's ready list. */
  function RemoveFromReady(m: Manager, core: nat, t: TaskRef): (r: Manager)
    requires Wf(m) && core < |m.ready|
    ensures Wf(r)
    ensures r.tasks == m.tasks && r.idle == m.idle && r.sleep == m.sleep && r.taskCount == m.taskCount
    ensures |r.ready| == |m.ready| && forall c :: 0 <= c < |m.ready| && c != core ==> r.ready[c] == m.ready[c]
    ensures r.ready[core] == if t == Idle(core) then m.ready[core] else RemoveFirst(m.ready[core], t)
  {
    if t == Idle(core) then m
    else
      var s := RemoveFirst(m.ready[core], t);
      RemoveKeepsRefs(m, m.ready[core], t);
      RemoveFirstMembers(m.ready[core], t);
      m.(ready := m.ready[core := s])
  }

  /** The index of the first READY task of `s`, or |s| when there is none. */
  function FirstReady(m: Manager, s: seq<TaskRef>): (k: nat)
    requires RefsOk(m, s)
    ensures k <= |s|
    ensures k < |s| ==> Get(m, s[k]).state == Ready
    ensures forall j :: 0 <= j < k ==> Get(m, s[j]).state != Ready
  {
    if |s| == 0 then 0
    else if Get(m, s[0]).state == Ready then 0
    else 1 + FirstReady(m, s[1..])
  }

  /**
   task_next_run on `core`: the first READY task of the ready list is taken
   off it and returned; tasks in another state are passed over and stay;
   with none READY the core's idle task runs.
   */
  function NextRun(m: Manager, core: nat): (r: (TaskRef, Manager))
    requires Wf(m) && core < |m.ready|
    ensures Wf(r.1) && ValidRef(m, r.0)
    ensures r.0 == Idle(core) <==> forall j :: 0 <= j < |m.ready[core]| ==> Get(m, m.ready[core][j]).state != Ready
    ensures r.0 == Idle(core) ==> r.1 == m
    ensures r.0 != Idle(core) ==> (
      var s := m.ready[core];
      r.0 in s && Get(m, r.0).state == Ready
      && (forall j :: 0 <= j < IndexOf(s, r.0) ==> Get(m, s[j]).state != Ready)
      && r.1 == m.(ready := m.ready[core := s[..IndexOf(s, r.0)] + s[IndexOf(s, r.0) + 1..]]))
  {
    var s := m.ready[core];
    assert RefsOk(m, s);
    var k := FirstReady(m, s);
    if k == |s| then (Idle(core), m)
    else
      var t := s[k];
      assert t != Idle(core);
      assert IndexOf(s, t) == k by {
        forall j | 0 <= j < k ensures s[j] != t {
          assert Get(m, s[j]).state != Ready;
        }
      }
      (t, RemoveFromReady(m, core, t))
  }

  /** Every task on the core's ready list is READY and listed once. */
  predicate ReadyQueue(m: Manager, core: nat)
    requires Wf(m) && core < |m.ready|
  {
    Distinct(m.ready[core])
    && forall j :: 0 <= j < |m.ready[core]| ==> Get(m, m.ready[core][j]).state == Ready
  }

  /** On a ready list that holds only READY tasks, task_next_run takes the head. */
  lemma NextRunTakesHead(m: Manager, core: nat)
    requires Wf(m) && core < |m.ready| && ReadyQueue(m, core) && |m.ready[core]| > 0
    ensures NextRun(m, core).0 == m.ready[core][0]
    ensures NextRun(m, core).1.ready[core] == m.ready[core][1..]
    ensures ReadyQueue(NextRun(m, core).1, core)
  {
    var s := m.ready[core];
    var (t, m1) := NextRun(m, core);
    assert Get(m, s[0]).state == Ready;
    assert t != Idle(core);
    assert IndexOf(s, t) == 0;
    assert m1.ready[core] == s[1..];
    SameTables(m, m1);
    forall j | 0 <= j < |s| - 1 ensures Get(m1, m1.ready[core][j]).state == Ready {
      assert m1.ready[core][j] == s[j + 1];
    }
    assert Distinct(s[1..]) by {
      forall a, b | 0 <= a < b < |s| - 1 ensures s[1..][a] != s[1..][b] {
        assert s[1..][a] == s[a + 1] && s[1..][b] == s[b + 1];
      }
    }
  }

  /** Two managers with the same tables read every task the same way. */
  lemma SameTables(m: Manager, m1: Manager)
    requires m1.tasks == m.tasks && m1.idle == m.idle
    ensures forall u :: ValidRef(m, u) ==> ValidRef(m1, u) && Get(m1, u) == Get(m, u)
  {
  }

  /** Adding a task that is not yet listed keeps the list a queue of READY tasks. */
  lemma AddKeepsReadyQueue(m: Manager, core: nat, t: TaskRef)
    requires Wf(m) && core < |m.ready| && ValidRef(m, t) && ReadyQueue(m, core) && t !in m.ready[core]
    ensures ReadyQueue(AddReadyTail(m, core, t), core)
  {
    var r := AddReadyTail(m, core, t);
    if t != Idle(core) {
      DistinctSnoc(m.ready[core], t);
      forall j | 0 <= j < |r.ready[core]| ensures Get(r, r.ready[core][j]).state == Ready {
        if j < |m.ready[core]| {
          var u := m.ready[core][j];
          assert r.ready[core][j] == u;
          assert RefsOk(m, m.ready[core]);
          if u != t { assert Get(r, u) == Get(m, u); }
        }
      }
    }
  }

  /**
   Round robin: taking the head of a queue of READY tasks to run and, when
   its slice ends, putting it back at the tail rotates the queue by one and
   keeps it a queue of READY tasks.
   */
  lemma Rotate(m: Manager, core: nat)
    requires Wf(m) && core < |m.ready| && ReadyQueue(m, core) && |m.ready[core]| > 0
    ensures var (t, m1) := NextRun(m, core);
      var m2 := AddReadyTail(m1, core, t);
      t == m.ready[core][0] && m2.ready[core] == m.ready[core][1..] + [t] && ReadyQueue(m2, core)
  {
    NextRunTakesHead(m, core);
    var (t, m1) := NextRun(m, core);
    var s := m.ready[core];
    assert t !in m1.ready[core] by {
      forall j | 0 <= j < |s| - 1 ensures m1.ready[core][j] != t {
        assert m1.ready[core][j] == s[j + 1];
      }
    }
    AddKeepsReadyQueue(m1, core, t);
  }

  // ---------------------------------------------------------------------
  // Sleeping and the timer tick
  // ---------------------------------------------------------------------

  /**
   task_set_sleep: a tick count of 0 changes nothing; otherwise the count is
   stored in the 32-bit `sleep_ticks`, the task becomes WAITING and joins the
   end of the sleep list.
   */
  function SetSleep(m: Manager, t: TaskRef, ticks: u64): (r: Manager)
    requires Wf(m) && ValidRef(m, t)
    ensures Wf(r) && SameShape(r, m)
    ensures ticks == 0 ==> r == m
    ensures ticks > 0 ==>
      Get(r, t) == Get(m, t).(sleepTicks := AsI32(ticks), state := Waiting)
      && r.sleep == m.sleep + [t] && r.ready == m.ready
      && (forall u :: ValidRef(m, u) && u != t ==> Get(r, u) == Get(m, u))
    ensures 0 < ticks < 0x8000_0000 ==> Get(r, t).sleepTicks == ticks
  {
    if ticks == 0 then m
    else
      var m1 := Put(m, t, Get(m, t).(sleepTicks := AsI32(ticks), state := Waiting));
      PutWf(m, t, Get(m, t).(sleepTicks := AsI32(ticks), state := Waiting));
      m1.(sleep := m1.sleep + [t])
  }

  /** task_set_wakeup: the task leaves the sleep list and becomes READY. */
  function SetWakeup(m: Manager, t: TaskRef): (r: Manager)
    requires Wf(m) && ValidRef(m, t)
    ensures Wf(r)
    ensures r.sleep == RemoveFirst(m.sleep, t) && r.ready == m.ready
    ensures Get(r, t) == Get(m, t).(state := Ready)
    ensures forall u :: ValidRef(m, u) && u != t ==> Get(r, u) == Get(m, u)
  {
    var m1 := Put(m, t, Get(m, t).(state := Ready));
    PutWf(m, t, Get(m, t).(state := Ready));
    assert RefsOk(m1, m.sleep);
    RemoveKeepsRefs(m1, m.sleep, t);
    m1.(sleep := RemoveFirst(m.sleep, t))
  }

  /** Putting a task to sleep and waking it leaves the sleep list as it was, when the task was not on it. */
  lemma SleepWakeRoundTrip(m: Manager, t: TaskRef, ticks: u64)
    requires Wf(m) && ValidRef(m, t) && ticks > 0 && t !in m.sleep
    ensures SetWakeup(SetSleep(m, t, ticks), t).sleep == m.sleep
    ensures Get(SetWakeup(SetSleep(m, t, ticks), t), t).state == Ready
  {
    var s := m.sleep + [t];
    assert IndexOf(s, t) == |m.sleep| by {
      forall j | 0 <= j < |m.sleep| ensures s[j] != t { assert s[j] == m.sleep[j]; }
    }
    assert s[..|m.sleep|] == m.sleep;
  }

  /**
   sys_sleep_tick: a delay under SYS_TASK_TICK milliseconds is raised to it,
   the task leaves the ready list and sleeps for a tenth of the delay in
   ticks, so always for at least one tick.
   */
  function SleepMs(m: Manager, core: nat, cur: TaskRef, ms: u64): (r: Manager)
    requires Wf(m) && core < |m.ready| && ValidRef(m, cur)
    ensures Wf(r)
    ensures cur in r.sleep && Get(r, cur).state == Waiting
    ensures ms < 0x8000_0000 * 10 ==> Get(r, cur).sleepTicks == if ms < SysTaskTick then 1 else ms / 10
    ensures Get(r, cur).sleepTicks == AsI32(if ms < SysTaskTick then 1 else ms / 10)
  {
    var ms' := if ms < SysTaskTick then SysTaskTick else ms;
    var m1 := RemoveFromReady(m, core, cur);
    SetSleep(m1, cur, ms' / 10)
  }

  /**
   One entry of the sleep-list walk of timer_tick_schedule: the task's
   `sleep_ticks` is decremented in 32-bit arithmetic, and a task that
   reaches 0 is woken and appended to the core's ready list.
   */
  function WakeStep(m: Manager, core: nat, t: TaskRef): (r: Manager)
    requires Wf(m) && core < |m.ready| && ValidRef(m, t)
    ensures Wf(r) && SameShape(r, m)
    ensures Get(r, t).sleepTicks == AsI32(Get(m, t).sleepTicks - 1)
    ensures Get(r, t).id == Get(m, t).id && Get(r, t).counter == Get(m, t).counter
    ensures forall u :: ValidRef(m, u) && u != t ==> Get(r, u) == Get(m, u)
    ensures Get(r, t).sleepTicks != 0 ==>
      r.sleep == m.sleep && r.ready == m.ready && Get(r, t).state == Get(m, t).state
    ensures Get(r, t).sleepTicks == 0 ==>
      r.sleep == RemoveFirst(m.sleep, t) && Get(r, t).state == Ready
      && r.ready == (if t == Idle(core) then m.ready else m.ready[core := m.ready[core] + [t]])
  {
    var tcb := Get(m, t);
    var n := AsI32(tcb.sleepTicks - 1);
    var m1 := Put(m, t, tcb.(sleepTicks := n));
    PutWf(m, t, tcb.(sleepTicks := n));
    if n == 0 then Wake(m1, core, t) else m1
  }

  /** A sleeper whose count ran out: task_set_wakeup, then task_add_to_readylist_tail. */
  function Wake(m: Manager, core: nat, t: TaskRef): (r: Manager)
    requires Wf(m) && core < |m.ready| && ValidRef(m, t)
    ensures Wf(r) && SameShape(r, m)
    ensures Get(r, t) == Get(m, t).(state := Ready)
    ensures forall u :: ValidRef(m, u) && u != t ==> Get(r, u) == Get(m, u)
    ensures r.sleep == RemoveFirst(m.sleep, t)
    ensures r.ready == if t == Idle(core) then m.ready else m.ready[core := m.ready[core] + [t]]
  {
    var m1 := SetWakeup(m, t);
    AddReadyTail(m1, core, t)
  }

  /** The sleep-list walk of timer_tick_schedule over the entries in `pending`. */
  function WakeSleepers(m: Manager, core: nat, pending: seq<TaskRef>): (r: Manager)
    requires Wf(m) && core < |m.ready| && RefsOk(m, pending)
    ensures Wf(r) && SameShape(r, m)
    decreases |pending|
  {
    if |pending| == 0 then m
    else
      var m1 := WakeStep(m, core, pending[0]);
      ShapeKeepsRefs(m, m1);
      WakeSleepers(m1, core, pending[1..])
  }

  /** One timer tick's sleep handling on `core`. */
  function SleepTick(m: Manager, core: nat): (r: Manager)
    requires Wf(m) && core < |m.ready|
    ensures Wf(r) && SameShape(r, m)
  {
    WakeSleepers(m, core, m.sleep)
  }

  /** A task the walk does not reach keeps its TCB and its place on the sleep list. */
  lemma {:induction false} UntouchedSleeper(m: Manager, core: nat, pending: seq<TaskRef>, x: TaskRef)
    requires Wf(m) && core < |m.ready| && RefsOk(m, pending) && ValidRef(m, x) && x !in pending
    ensures ValidRef(WakeSleepers(m, core, pending), x)
    ensures Get(WakeSleepers(m, core, pending), x) == Get(m, x)
    ensures x in m.sleep ==> x in WakeSleepers(m, core, pending).sleep
    decreases |pending|
  {
    if |pending| > 0 {
      var t := pending[0];
      var m1 := WakeStep(m, core, t);
      ShapeKeepsRefs(m, m1);
      assert x != t && x !in pending[1..];
      RemoveFirstMembers(m.sleep, t);
      assert x in m.sleep ==> x in m1.sleep;
      UntouchedSleeper(m1, core, pending[1..], x);
    }
  }

  /** The walk only ever appends to the core's ready list. */
  lemma {:induction false} ReadyStays(m: Manager, core: nat, pending: seq<TaskRef>, x: TaskRef)
    requires Wf(m) && core < |m.ready| && RefsOk(m, pending) && x in m.ready[core]
    ensures x in WakeSleepers(m, core, pending).ready[core]
    decreases |pending|
  {
    if |pending| > 0 {
      var m1 := WakeStep(m, core, pending[0]);
      ShapeKeepsRefs(m, m1);
      assert x in m1.ready[core];
      ReadyStays(m1, core, pending[1..], x);
    }
  }

  /** The walk never adds to the sleep list. */
  lemma {:induction false} SleepListShrinks(m: Manager, core: nat, pending: seq<TaskRef>, x: TaskRef)
    requires Wf(m) && core < |m.ready| && RefsOk(m, pending) && x !in m.sleep
    ensures x !in WakeSleepers(m, core, pending).sleep
    decreases |pending|
  {
    if |pending| > 0 {
      var m1 := WakeStep(m, core, pending[0]);
      ShapeKeepsRefs(m, m1);
      RemoveFirstMembers(m.sleep, pending[0]);
      assert x !in m1.sleep;
      SleepListShrinks(m1, core, pending[1..], x);
    }
  }

  /** The walk keeps the sleep list free of repeats. */
  lemma {:induction false} SleepListDistinct(m: Manager, core: nat, pending: seq<TaskRef>)
    requires Wf(m) && core < |m.ready| && RefsOk(m, pending) && Distinct(m.sleep)
    ensures Distinct(WakeSleepers(m, core, pending).sleep)
    decreases |pending|
  {
    if |pending| > 0 {
      var m1 := WakeStep(m, core, pending[0]);
      ShapeKeepsRefs(m, m1);
      RemoveFirstDistinct(m.sleep, pending[0]);
      SleepListDistinct(m1, core, pending[1..]);
    }
  }

  /** A list without repeats has none after its first element either, and that element is not among the rest. */
  lemma DistinctTail(s: seq<TaskRef>)
    requires |s| > 0 && Distinct(s)
    ensures Distinct(s[1..]) && s[0] !in s[1..]
  {
    forall a, b | 0 <= a < b < |s| - 1 ensures s[1..][a] != s[1..][b] {
      assert s[1..][a] == s[a + 1] && s[1..][b] == s[b + 1];
    }
    forall j | 0 <= j < |s| - 1 ensures s[1..][j] != s[0] {
      assert s[1..][j] == s[j + 1];
    }
  }

  /**
   What one walk does to a listed task whose TCB was `before`: its count
   drops by one in 32-bit arithmetic; if that makes it 0 the task leaves
   the sleep list, becomes READY and is on the core's ready list (unless it
   is the core's idle task); otherwise it is still asleep.
   */
  predicate Fate(before: Tcb, r: Manager, core: nat, x: TaskRef) {
    var n := AsI32(before.sleepTicks - 1);
    ValidRef(r, x) && Get(r, x).sleepTicks == n
    && (n != 0 ==> x in r.sleep && Get(r, x).state == before.state)
    && (n == 0 ==> (x !in r.sleep && Get(r, x).state == Ready
          && (x != Idle(core) ==> core < |r.ready| && x in r.ready[core])))
  }

  /** The walk's effect on a listed task, when it is the first entry the walk reaches. */
  lemma SleeperFateHere(m: Manager, core: nat, pending: seq<TaskRef>, x: TaskRef)
    requires Wf(m) && core < |m.ready| && RefsOk(m, pending) && Distinct(pending)
    requires |pending| > 0 && pending[0] == x && Distinct(m.sleep) && x in m.sleep
    ensures Fate(Get(m, x), WakeSleepers(m, core, pending), core, x)
  {
    var m1 := WakeStep(m, core, x);
    ShapeKeepsRefs(m, m1);
    DistinctTail(pending);
    UntouchedSleeper(m1, core, pending[1..], x);
    if Get(m1, x).sleepTicks == 0 {
      RemoveFirstDistinct(m.sleep, x);
      SleepListShrinks(m1, core, pending[1..], x);
      if x != Idle(core) {
        assert x in m1.ready[core];
        ReadyStays(m1, core, pending[1..], x);
      }
    }
  }

  /** The walk's effect on any listed task. */
  lemma {:induction false} SleeperFate(m: Manager, core: nat, pending: seq<TaskRef>, x: TaskRef)
    requires Wf(m) && core < |m.ready| && RefsOk(m, pending) && Distinct(pending) && x in pending
    requires Distinct(m.sleep) && x in m.sleep
    ensures Fate(Get(m, x), WakeSleepers(m, core, pending), core, x)
    decreases |pending|
  {
    if pending[0] == x {
      SleeperFateHere(m, core, pending, x);
    } else {
      var t := pending[0];
      var m1 := WakeStep(m, core, t);
      ShapeKeepsRefs(m, m1);
      DistinctTail(pending);
      assert x in pending[1..];
      assert Get(m1, x) == Get(m, x);
      RemoveFirstMembers(m.sleep, t);
      RemoveFirstDistinct(m.sleep, t);
      assert x in m1.sleep && Distinct(m1.sleep);
      SleeperFate(m1, core, pending[1..], x);
      assert WakeSleepers(m, core, pending) == WakeSleepers(m1, core, pending[1..]);
    }
  }

  /** The sleep handling leaves every task's time-slice counter alone. */
  lemma {:induction false} SleepKeepsCounters(m: Manager, core: nat, pending: seq<TaskRef>, x: TaskRef)
    requires Wf(m) && core < |m.ready| && RefsOk(m, pending) && ValidRef(m, x)
    ensures ValidRef(WakeSleepers(m, core, pending), x)
    ensures Get(WakeSleepers(m, core, pending), x).counter == Get(m, x).counter
    decreases |pending|
  {
    if |pending| > 0 {
      var m1 := WakeStep(m, core, pending[0]);
      ShapeKeepsRefs(m, m1);
      SleepKeepsCounters(m1, core, pending[1..], x);
    }
  }

  /** `k` timer ticks' sleep handling on `core`. */
  function SleepTicks(m: Manager, core: nat, k: nat): (r: Manager)
    requires Wf(m) && core < |m.ready|
    ensures Wf(r) && SameShape(r, m)
    decreases k
  {
    if k == 0 then m else SleepTicks(SleepTick(m, core), core, k - 1)
  }

  /** One tick's sleep handling on a sleeping task with a positive count. */
  lemma OneTick(m: Manager, core: nat, x: TaskRef)
    requires Wf(m) && core < |m.ready| && Distinct(m.sleep) && x in m.sleep
    requires ValidRef(m, x) && 1 <= Get(m, x).sleepTicks
    ensures var m1 := SleepTick(m, core);
      Distinct(m1.sleep) && ValidRef(m1, x) && Get(m1, x).sleepTicks == Get(m, x).sleepTicks - 1
      && (Get(m1, x).sleepTicks != 0 ==> x in m1.sleep)
      && (Get(m1, x).sleepTicks == 0 ==> x !in m1.sleep && Get(m1, x).state == Ready)
  {
    assert RefsOk(m, m.sleep);
    SleepListDistinct(m, core, m.sleep);
    SleeperFate(m, core, m.sleep, x);
    assert AsI32(Get(m, x).sleepTicks - 1) == Get(m, x).sleepTicks - 1;
  }

  /**
   A task asleep for `t` ticks (below 2^31) is still asleep, with `t - k`
   ticks to go, after `k < t` ticks, and is woken and READY at the `t`-th.
   */
  lemma {:induction false} WakesAfter(m: Manager, core: nat, x: TaskRef, t: int, k: nat)
    requires Wf(m) && core < |m.ready| && Distinct(m.sleep) && x in m.sleep
    requires ValidRef(m, x) && Get(m, x).sleepTicks == t && 1 <= k <= t < 0x8000_0000
    ensures var r := SleepTicks(m, core, k);
      ValidRef(r, x)
      && (k < t ==> x in r.sleep && Get(r, x).sleepTicks == t - k)
      && (k == t ==> x !in r.sleep && Get(r, x).state == Ready)
    decreases k
  {
    var m1 := SleepTick(m, core);
    OneTick(m, core, x);
    if k > 1 {
      WakesAfter(m1, core, x, t - 1, k - 1);
      assert SleepTicks(m, core, k) == SleepTicks(m1, core, k - 1);
    } else {
      assert SleepTicks(m, core, 1) == SleepTicks(m1, core, 0);
    }
  }

  // ---------------------------------------------------------------------
  // The time slice
  // ---------------------------------------------------------------------

  /**
   The time-slice part of timer_tick_schedule: the running task's 32-bit
   counter is decremented; when it is no longer positive the slice has
   ended: a task other than the core's idle task gets SYS_TASK_TICK again
   and goes to the end of the ready list, the idle task gets SYS_TASK_TICK/5.
   The boolean says whether the slice ended (and schedule() is called).
   */
  function CounterTick(m: Manager, core: nat, cur: TaskRef): (r: (Manager, bool))
    requires Wf(m) && core < |m.ready| && ValidRef(m, cur)
    ensures Wf(r.0) && SameShape(r.0, m) && ValidRef(r.0, cur)
    ensures r.1 <==> Get(m, cur).counter <= 1 && Get(m, cur).counter != -0x8000_0000
    ensures !r.1 ==> Get(r.0, cur).counter == AsI32(Get(m, cur).counter - 1) && r.0.ready == m.ready
    ensures r.1 && cur != Idle(core) ==>
      Get(r.0, cur).counter == SysTaskTick && r.0.ready[core] == m.ready[core] + [cur]
      && Get(r.0, cur).state == Ready
    ensures r.1 && cur == Idle(core) ==> Get(r.0, cur).counter == SysTaskTick / 5 && r.0.ready == m.ready
    ensures forall u :: ValidRef(m, u) && u != cur ==> Get(r.0, u) == Get(m, u)
  {
    var tcb := Get(m, cur);
    var c := AsI32(tcb.counter - 1);
    if c > 0 then
      PutWf(m, cur, tcb.(counter := c));
      (Put(m, cur, tcb.(counter := c)), false)
    else if cur != Idle(core) then
      PutWf(m, cur, tcb.(counter := SysTaskTick));
      (AddReadyTail(Put(m, cur, tcb.(counter := SysTaskTick)), core, cur), true)
    else
      PutWf(m, cur, tcb.(counter := SysTaskTick / 5));
      (Put(m, cur, tcb.(counter := SysTaskTick / 5)), true)
  }

  /**
   timer_tick_schedule on `core` with `cur` running: first the sleep list is
   walked, then the running task's slice is counted down. Whether the slice
   ends depends only on the counter the running task had before the tick.
   */
  function TimerTick(m: Manager, core: nat, cur: TaskRef): (r: (Manager, bool))
    requires Wf(m) && core < |m.ready| && ValidRef(m, cur)
    ensures Wf(r.0) && SameShape(r.0, m)
    ensures r.1 <==> Get(m, cur).counter <= 1 && Get(m, cur).counter != -0x8000_0000
  {
    var m1 := SleepTick(m, core);
    SleepKeepsCounters(m, core, m.sleep, cur);
    CounterTick(m1, core, cur)
  }

  /** `k` timer ticks of the running task's slice, and whether one of them ended it. */
  function Countdown(m: Manager, core: nat, cur: TaskRef, k: nat): (r: (Manager, bool))
    requires Wf(m) && core < |m.ready| && ValidRef(m, cur)
    ensures Wf(r.0) && ValidRef(r.0, cur)
    decreases k
  {
    if k == 0 then (m, false)
    else
      var (m1, ended) := CounterTick(m, core, cur);
      var (m2, later) := Countdown(m1, core, cur, k - 1);
      (m2, ended || later)
  }

  /**
   A task with `c` ticks left (a positive 32-bit count) runs `c - 1` ticks
   without its slice ending and loses the processor at the `c`-th, when
   its counter is refilled.
   */
  lemma {:induction false} SliceLength(m: Manager, core: nat, cur: TaskRef, c: int, k: nat)
    requires Wf(m) && core < |m.ready| && ValidRef(m, cur)
    requires Get(m, cur).counter == c && 1 <= k <= c
    ensures var r := Countdown(m, core, cur, k);
      (k < c ==> !r.1 && Get(r.0, cur).counter == c - k)
      && (k == c ==> r.1 && Get(r.0, cur).counter == if cur == Idle(core) then SysTaskTick / 5 else SysTaskTick)
    decreases k
  {
    var (m1, ended) := CounterTick(m, core, cur);
    if k == 1 {
      assert Countdown(m, core, cur, 1) == (m1, ended || false);
    } else {
      assert AsI32(c - 1) == c - 1;
      SliceLength(m1, core, cur, c - 1, k - 1);
    }
  }
}
