/** The task table, the scheduler, the sleep queue and one mutex, in place. Every method is one interrupts-off section or
    a part of one; its contract is the function of module Scheduling with the same name. */
module Kernels {
  import opened LinkedLists
  import opened Scheduling
  import TaskMachine

  /** The node for queues is embedded in the task and leads back to its place in the table. */
  class Task {
    var status: TaskStatus
    var wakeupMoment: int
    const processId: Id
    const linkedListNode: LinkedListNode<Id>

    /** A task is made from a page that nobody has filled; `leftStatus` and `leftMoment` are what the page held before. */
    constructor (processId: Id, leftStatus: TaskStatus, leftMoment: int)
      ensures this.processId == processId && linkedListNode.owner == processId && fresh(linkedListNode)
      ensures status == leftStatus && wakeupMoment == leftMoment
    {
      this.processId, status, wakeupMoment := processId, leftStatus, leftMoment;
      linkedListNode := new LinkedListNode(processId);
    }
  }

  class Mutex {
    var occupied: bool
    const waiters: LinkedList<Id>

    constructor ()
      ensures !occupied && fresh(waiters) && waiters.Valid() && waiters.contents == []
    {
      occupied := false;
      waiters := new LinkedList();
    }
  }

  const INTERRUPT_FREQUENCY := 100

  /** The tasks whose nodes are linked. */
  ghost function Owners(c: seq<LinkedListNode<Id>>): (r: seq<Id>)
    ensures |r| == |c|
  {
    seq(|c|, k requires 0 <= k < |c| => c[k].owner)
  }

  class Kernel {
    const taskTable: array<Task?>
    const sleepingTaskList: LinkedList<Id>
    const mutex: Mutex
    var timePassedSinceBoot: int
    var prevId: Id
    var currentTask: Task
    ghost var state: State

    /** Every task knows its place in the table, and so does its node. */
    static ghost predicate Tabled(tasks: seq<Task?>) {
      && |tasks| == TASK_TABLE_SIZE
      && forall i: Id :: tasks[i] != null ==> tasks[i].processId == i && tasks[i].linkedListNode.owner == i
    }

    /** What the table says, entry by entry. */
    static ghost predicate Entries(tasks: seq<Task?>, table: Table)
      requires |tasks| == TASK_TABLE_SIZE
      reads tasks
    {
      forall i: Id :: if tasks[i] == null then table[i].Empty? else table[i] == Present(tasks[i].status, tasks[i].wakeupMoment)
    }

    /** The nodes of a queue belong to tasks of the table. */
    static ghost predicate Queue(tasks: seq<Task?>, c: seq<LinkedListNode<Id>>)
      requires |tasks| == TASK_TABLE_SIZE
    {
      forall k :: 0 <= k < |c| ==> var t := tasks[c[k].owner]; t != null && t.linkedListNode == c[k]
    }

    static ghost predicate Apart(c: seq<LinkedListNode<Id>>, d: seq<LinkedListNode<Id>>) {
      forall i, j :: 0 <= i < |c| && 0 <= j < |d| ==> c[i] != d[j]
    }

    ghost predicate Valid()
      reads this, taskTable, taskTable[..], mutex, mutex.waiters, mutex.waiters.contents, sleepingTaskList, sleepingTaskList.contents
    {
      && Tabled(taskTable[..]) && Entries(taskTable[..], state.table)
      && mutex.waiters != sleepingTaskList && mutex.waiters.Valid() && sleepingTaskList.Valid()
      && Queue(taskTable[..], mutex.waiters.contents) && Queue(taskTable[..], sleepingTaskList.contents)
      && Apart(mutex.waiters.contents, sleepingTaskList.contents)
      && taskTable[currentTask.processId] == currentTask && taskTable[0] != null
      && state.current == currentTask.processId && state.prevId == prevId && state.time == timePassedSinceBoot
      && state.occupied == mutex.occupied
      && state.waiters == Owners(mutex.waiters.contents) && state.sleepers == Owners(sleepingTaskList.contents)
    }

    /** Only task 0 is there, and it runs. */
    constructor (first: Task)
      requires first.processId == 0 && first.linkedListNode.owner == 0 && first.status == READY
      ensures Valid() && currentTask == first && taskTable.Length == 256
      ensures Ready(state.table, 0) && (forall i: Id :: i != 0 ==> state.table[i].Empty?)
      ensures state.current == 0 && state.prevId == 0 && state.time == 0
      ensures state.sleepers == [] && state.waiters == [] && !state.occupied
    {
      hide Tabled, Entries, Queue, Owners, LinkedList.Chained;
      taskTable := new Task?[TASK_TABLE_SIZE](i => if i == 0 then first else null);
      sleepingTaskList := new LinkedList();
      mutex := new Mutex();
      timePassedSinceBoot, prevId, currentTask := 0, 0, first;
      var entry := Present(first.status, first.wakeupMoment);
      state := State(seq(TASK_TABLE_SIZE, i => if i == 0 then entry else Empty), 0, 0, 0, [], false, []);
      new;
      OneTask(taskTable[..], first, state.table);
      NoQueue(taskTable[..]);
    }

    static lemma OneTask(tasks: seq<Task?>, first: Task, table: Table)
      requires |tasks| == TASK_TABLE_SIZE && forall i: Id :: tasks[i] == if i == 0 then first else null
      requires forall i: Id :: table[i] == if i == 0 then Present(first.status, first.wakeupMoment) else Empty
      requires first.processId == 0 && first.linkedListNode.owner == 0
      ensures Tabled(tasks) && Entries(tasks, table)
    {
    }

    /** The loop of `schedule`. */
    method Pick(ghost table: Table) returns (next: Task?)
      requires Tabled(taskTable[..]) && Entries(taskTable[..], table)
      modifies `prevId
      ensures prevId == Scan(table, old(prevId), 1) && next == taskTable[prevId]
    {
      hide Entries;
      ghost var tasks := taskTable[..];
      next := null;
      var prevIdBackup := prevId;
      ghost var d := 0;
      while true
        invariant d < TASK_TABLE_SIZE && prevId == Forward(prevIdBackup, d)
        invariant Scan(table, prevIdBackup, d + 1) == Scan(table, prevIdBackup, 1)
        decreases TASK_TABLE_SIZE - d
      {
        if prevId + 1 >= TASK_TABLE_SIZE {
          prevId := 0;
        } else {
          prevId := prevId + 1;
        }
        d := d + 1;
        next := taskTable[prevId];
        EntryAt(tasks, table, prevId);
        if next != null && next.status == READY {
          break;
        }
        if prevId == prevIdBackup {
          break;
        }
      }
    }

    static lemma EntryAt(tasks: seq<Task?>, table: Table, i: Id)
      requires |tasks| == TASK_TABLE_SIZE && Entries(tasks, table)
      ensures if tasks[i] == null then table[i].Empty? else table[i] == Present(tasks[i].status, tasks[i].wakeupMoment)
    {
    }

    method Schedule()
      requires Valid()
      modifies `prevId, `currentTask, `state
      ensures Valid() && state == Scheduling.Schedule(old(state))
    {
      hide Scan, Entries, Queue, Owners, LinkedList.Valid;
      var next := Pick(state.table);
      EntryAt(taskTable[..], state.table, prevId);
      if next == null {
        next := taskTable[0];
      }
      currentTask := next;
      state := Scheduling.Schedule(state);
    }

    method SetStatus(task: Task, status: TaskStatus, ghost tasks: seq<Task?>, ghost table: Table)
      requires Tabled(tasks) && Entries(tasks, table) && tasks[task.processId] == task
      modifies task`status
      ensures Entries(tasks, WithStatus(table, task.processId, status))
    {
      EntryAt(tasks, table, task.processId);
      task.status := status;
    }

    /** The running task is queued and blocked. */
    method Wait()
      requires Valid() && currentTask.linkedListNode !in mutex.waiters.contents + sleepingTaskList.contents
      modifies `state, mutex.waiters, mutex.waiters.tail, currentTask, currentTask.linkedListNode
      ensures Valid() && state == Waiting(old(state))
    {
      hide Entries, LinkedList.Chained;
      var task := currentTask;
      ghost var tasks, c, node := taskTable[..], mutex.waiters.contents, task.linkedListNode;
      assert mutex.waiters.tail == null || mutex.waiters.tail in c;
      mutex.waiters.Append(task.linkedListNode);
      assert Entries(tasks, state.table);
      SetStatus(task, BLOCKED, tasks, state.table);
      QueueWith(tasks, c, node);
      state := Waiting(state);
    }

    static lemma QueueWith(tasks: seq<Task?>, c: seq<LinkedListNode<Id>>, n: LinkedListNode<Id>)
      requires |tasks| == TASK_TABLE_SIZE && Queue(tasks, c)
      requires tasks[n.owner] != null && tasks[n.owner].linkedListNode == n
      ensures Queue(tasks, c + [n]) && Owners(c + [n]) == Owners(c) + [n.owner]
    {
    }

    /** While the queues are in order, the node of a running READY task is free, as `LockPass` and `SleepCall` need it. */
    lemma RunningUnlinked()
      requires Valid() && TaskMachine.Queued(state) && Ready(state.table, state.current)
      ensures currentTask.linkedListNode !in mutex.waiters.contents + sleepingTaskList.contents
    {
      hide LinkedList.Chained, Entries;
      var n, w, c := currentTask.linkedListNode, mutex.waiters.contents, sleepingTaskList.contents;
      assert taskTable[..][state.current] == currentTask;
      assert state.current !in state.waiters && state.current !in state.sleepers;
      OwnerListed(w, n);
      OwnerListed(c, n);
    }

    static lemma OwnerListed(c: seq<LinkedListNode<Id>>, n: LinkedListNode<Id>)
      ensures n in c ==> n.owner in Owners(c)
    {
      if n in c {
        var k :| 0 <= k < |c| && c[k] == n;
        assert Owners(c)[k] == n.owner;
      }
    }

    /** One pass of `lock`: the mutex is taken, or the task waits and another one runs. */
    method LockPass()
      requires Valid() && currentTask.linkedListNode !in mutex.waiters.contents + sleepingTaskList.contents
      modifies this, mutex, mutex.waiters, mutex.waiters.tail, currentTask, currentTask.linkedListNode
      ensures Valid() && state == Lock(old(state))
      ensures !old(mutex.occupied) ==> mutex.occupied && currentTask == old(currentTask) && state == old(state).(occupied := true)
    {
      hide Tabled, Entries, Queue, Owners, LinkedList.Chained, Scan;
      if mutex.occupied {
        Wait();
        Schedule();
      } else {
        mutex.occupied := true;
        state := state.(occupied := true);
      }
    }

    static ghost function TaskSet(tasks: seq<Task?>): set<Task> {
      set t: Task | t in tasks
    }

    static lemma ReadiedMore(table: Table, ids: seq<Id>, k: nat)
      requires k < |ids|
      ensures Readied(table, ids[..k + 1]) == WithStatus(Readied(table, ids[..k]), ids[k], READY)
    {
      assert ids[..k + 1] == ids[..k] + [ids[k]];
    }

    static lemma ReadiedNone(table: Table)
      ensures Readied(table, []) == table
    {
    }

    static lemma QueuedTask(tasks: seq<Task?>, c: seq<LinkedListNode<Id>>, k: nat)
      requires Tabled(tasks) && Queue(tasks, c) && k < |c|
      ensures var t := tasks[c[k].owner]; t != null && t.linkedListNode == c[k] && t.processId == Owners(c)[k] == c[k].owner
    {
    }

    /** All tasks in the queue of the mutex are made READY. */
    method ReadyWaiters(ghost tasks: seq<Task?>, ghost table: Table)
      requires tasks == taskTable[..] && Tabled(tasks) && Entries(tasks, table)
      requires mutex.waiters.Valid() && Queue(tasks, mutex.waiters.contents)
      modifies TaskSet(tasks)`status
      ensures Entries(tasks, Readied(table, Owners(mutex.waiters.contents)))
    {
      hide Entries, Readied, Owners, LinkedList.Chained, Queue;
      ghost var c, ids, k := mutex.waiters.contents, Owners(mutex.waiters.contents), 0;
      ReadiedNone(table);
      var it := mutex.waiters.head;
      while it != null
        invariant k <= |c| && it == LinkedList<Id>.After(c, k) && mutex.waiters.contents == c && mutex.waiters.Valid()
        invariant tasks == taskTable[..] && Entries(tasks, Readied(table, ids[..k]))
        decreases |c| - k
      {
        mutex.waiters.At(k);
        QueuedTask(tasks, c, k);
        ReadiedMore(table, ids, k);
        assert tasks[it.owner] in TaskSet(tasks);
        SetStatus(taskTable[it.owner], READY, tasks, Readied(table, ids[..k]));
        it := it.next;
        k := k + 1;
      }
      assert ids[..k] == ids;
    }

    static lemma NoQueue(tasks: seq<Task?>)
      requires Tabled(tasks)
      ensures Queue(tasks, []) && Owners([]) == []
    {
    }

    method Unlock()
      requires Valid()
      modifies `state, mutex, mutex.waiters, TaskSet(taskTable[..])`status
      ensures Valid() && state == Scheduling.Unlock(old(state))
    {
      hide Entries, Readied, Owners, LinkedList.Chained, Queue, Tabled;
      NoQueue(taskTable[..]);
      mutex.occupied := false;
      ReadyWaiters(taskTable[..], state.table);
      mutex.waiters.Clear();
      state := Scheduling.Unlock(state);
    }

    /** The tasks at the head of the sleep queue that are due are made READY and leave the queue. */
    method ReadySleepers(ghost tasks: seq<Task?>, ghost table: Table) returns (ghost k: nat)
      requires tasks == taskTable[..] && Tabled(tasks) && Entries(tasks, table)
      requires sleepingTaskList.Valid() && Queue(tasks, sleepingTaskList.contents)
      modifies sleepingTaskList, sleepingTaskList.contents, TaskSet(tasks)`status
      ensures sleepingTaskList.Valid()
      ensures k == Due(table, Owners(old(sleepingTaskList.contents)), timePassedSinceBoot)
      ensures k <= old(|sleepingTaskList.contents|) && sleepingTaskList.contents == old(sleepingTaskList.contents)[k..]
      ensures Entries(tasks, Readied(table, Owners(old(sleepingTaskList.contents))[..k]))
    {
      hide Entries, Readied, Owners, LinkedList.Chained, Queue, Due, Moment;
      ghost var c, ids := sleepingTaskList.contents, Owners(sleepingTaskList.contents);
      k := 0;
      ReadiedNone(table);
      var currNode := sleepingTaskList.head;
      while currNode != null
        invariant k <= |c| && currNode == LinkedList<Id>.After(c, k) && sleepingTaskList.contents == c[k..]
        invariant sleepingTaskList.Valid() && tasks == taskTable[..]
        invariant Entries(tasks, Readied(table, ids[..k]))
        invariant k <= Due(table, ids, timePassedSinceBoot)
        decreases |c| - k
      {
        QueuedTask(tasks, c, k);
        assert tasks[currNode.owner] in TaskSet(tasks);
        var task := taskTable[currNode.owner];
        DueOrNot(tasks, table, ids, k, timePassedSinceBoot);
        if task.wakeupMoment <= timePassedSinceBoot {
          ReadiedMore(table, ids, k);
          SetStatus(task, READY, tasks, Readied(table, ids[..k]));
          var _ := sleepingTaskList.RemoveFirst();
          currNode := sleepingTaskList.head;
          k := k + 1;
        } else {
          break;
        }
      }
    }

    static lemma DueOrNot(tasks: seq<Task?>, table: Table, ids: seq<Id>, k: nat, time: int)
      requires |tasks| == TASK_TABLE_SIZE && k < |ids| && tasks[ids[k]] != null && k <= Due(table, ids, time)
      requires Entries(tasks, Readied(table, ids[..k]))
      ensures tasks[ids[k]].wakeupMoment <= time <==> k < Due(table, ids, time)
    {
      EntryAt(tasks, Readied(table, ids[..k]), ids[k]);
    }

    method WakeupSleptEnoughTasks()
      requires Valid()
      modifies `state, sleepingTaskList, sleepingTaskList.contents, TaskSet(taskTable[..])`status
      ensures Valid() && state == Wakeup(old(state))
    {
      hide Entries, Readied, Owners, LinkedList.Chained, Queue, Tabled, Due;
      ghost var c := sleepingTaskList.contents;
      ghost var k := ReadySleepers(taskTable[..], state.table);
      QueueSuffix(taskTable[..], c, k);
      state := Wakeup(state);
    }

    static lemma QueueSuffix(tasks: seq<Task?>, c: seq<LinkedListNode<Id>>, k: nat)
      requires Tabled(tasks) && Queue(tasks, c) && k <= |c|
      ensures Queue(tasks, c[k..]) && Owners(c[k..]) == Owners(c)[k..]
    {
    }

    /** The verdict of the comparison with the neighbours of a gap, for a task that wakes up at `moment`. */
    static ghost function Judgement(table: Table, ids: seq<Id>, moment: int, i: nat): int
      requires i <= |ids|
    {
      if 0 < i < |ids| then if Moment(table, ids[i - 1]) <= moment && Moment(table, ids[i]) >= moment then 0 else 1
      else if i > 0 || ids == [] || Moment(table, ids[0]) >= moment then 0
      else 1
    }

    static ghost function Judgements(table: Table, ids: seq<Id>, moment: int): (v: seq<int>)
      ensures |v| == |ids| + 1
    {
      seq(|ids| + 1, i requires 0 <= i <= |ids| => Judgement(table, ids, moment, i))
    }

    static lemma AcceptedPlace(table: Table, ids: seq<Id>, moment: int)
      ensures LinkedList<Id>.Accepts(Judgements(table, ids, moment), Place(table, ids, moment))
      ensures forall k: nat :: LinkedList<Id>.Accepts(Judgements(table, ids, moment), k) ==> k == Place(table, ids, moment)
    {
      var v, p := Judgements(table, ids, moment), Place(table, ids, moment);
      assert v[p] == 0;
      assert forall i :: 0 <= i < p ==> v[i] == 1;
    }

    method PutToSleep(task: Task, milliseconds: nat)
      requires Valid() && taskTable[task.processId] == task && milliseconds < TIME_LIMIT
      requires task.linkedListNode !in mutex.waiters.contents + sleepingTaskList.contents
      modifies `state, task, task.linkedListNode, sleepingTaskList, sleepingTaskList.contents
      ensures Valid() && state == Scheduling.PutToSleep(old(state), task.processId, milliseconds)
    {
      hide Valid;
      if milliseconds == 0 {
        return;
      }
      FallAsleep(task, milliseconds);
    }

    method FallAsleep(task: Task, milliseconds: nat)
      requires Valid() && taskTable[task.processId] == task && 0 < milliseconds < TIME_LIMIT
      requires task.linkedListNode !in mutex.waiters.contents && task.linkedListNode !in sleepingTaskList.contents
      modifies `state, task, task.linkedListNode, sleepingTaskList, sleepingTaskList.contents
      ensures Valid() && state == Scheduling.PutToSleep(old(state), task.processId, milliseconds)
    {
      hide Entries, LinkedList.Chained, Place, Queue, Owners, Moments;
      ghost var tasks, c, table := taskTable[..], sleepingTaskList.contents, state.table;
      var targetTime := (timePassedSinceBoot + milliseconds) % TIME_LIMIT;
      SetMoment(task, targetTime, tasks, table, c);
      ghost var place := Enqueue(task, table, targetTime);
      QueueInsert(tasks, c, task.linkedListNode, place);
      state := Scheduling.PutToSleep(state, task.processId, milliseconds);
    }

    static ghost predicate Moments(tasks: seq<Task?>, table: Table, c: seq<LinkedListNode<Id>>)
      requires |tasks| == TASK_TABLE_SIZE
      reads tasks
    {
      forall k :: 0 <= k < |c| ==> tasks[c[k].owner] != null && tasks[c[k].owner].wakeupMoment == Moment(table, c[k].owner)
    }

    static lemma MomentsRead(tasks: seq<Task?>, table: Table, c: seq<LinkedListNode<Id>>, task: Task)
      requires Tabled(tasks) && Entries(tasks, table) && Queue(tasks, c) && tasks[task.processId] == task && task.linkedListNode !in c
      ensures Moments(tasks, table, c)
      ensures forall k :: 0 <= k < |c| ==> tasks[c[k].owner] != task
    {
    }

    static lemma QueueInsert(tasks: seq<Task?>, c: seq<LinkedListNode<Id>>, n: LinkedListNode<Id>, k: nat)
      requires |tasks| == TASK_TABLE_SIZE && Queue(tasks, c) && k <= |c|
      requires tasks[n.owner] != null && tasks[n.owner].linkedListNode == n
      ensures Queue(tasks, c[..k] + [n] + c[k..])
      ensures Owners(c[..k] + [n] + c[k..]) == Owners(c)[..k] + [n.owner] + Owners(c)[k..]
    {
    }

    /** The task goes into the sleep queue, in front of the first task that wakes up no earlier. */
    method Enqueue(task: Task, ghost table: Table, targetTime: int) returns (ghost place: nat)
      requires Tabled(taskTable[..]) && sleepingTaskList.Valid() && task.linkedListNode !in sleepingTaskList.contents
      requires Moments(taskTable[..], table, sleepingTaskList.contents)
      modifies task.linkedListNode, sleepingTaskList, sleepingTaskList.contents
      ensures sleepingTaskList.Valid() && place == Place(table, Owners(old(sleepingTaskList.contents)), targetTime)
      ensures place <= old(|sleepingTaskList.contents|)
      ensures sleepingTaskList.contents == old(sleepingTaskList.contents[..place] + [task.linkedListNode] + sleepingTaskList.contents[place..])
    {
      hide LinkedList.Chained, Place, Moment;
      var tasks := taskTable[..];
      var insertJudge := (before: LinkedListNode?<Id>, after: LinkedListNode?<Id>)
        requires |tasks| == TASK_TABLE_SIZE
        requires before != null ==> tasks[before.owner] != null
        requires after != null ==> tasks[after.owner] != null
        reads tasks
        => if before != null && after != null then
             if tasks[before.owner].wakeupMoment <= targetTime && tasks[after.owner].wakeupMoment >= targetTime then 0 else 1
           else if before != null then 0
           else if after != null then
             if tasks[after.owner].wakeupMoment >= targetTime then 0 else 1
           else 0;
      ghost var ids := Owners(sleepingTaskList.contents);
      AcceptedPlace(table, ids, targetTime);
      place := sleepingTaskList.InsertWhen(task.linkedListNode, insertJudge, Judgements(table, ids, targetTime));
    }

    /** The keys of the tasks in the queue `c` stay. */
    static method SetMoment(task: Task, moment: int, ghost tasks: seq<Task?>, ghost table: Table, ghost c: seq<LinkedListNode<Id>>)
      requires Tabled(tasks) && Entries(tasks, table) && tasks[task.processId] == task
      requires Queue(tasks, c) && task.linkedListNode !in c
      modifies task
      ensures Entries(tasks, table[task.processId := Present(BLOCKED, moment)]) && Moments(tasks, table, c)
    {
      hide Moment;
      MomentsRead(tasks, table, c, task);
      EntryAt(tasks, table, task.processId);
      task.wakeupMoment := moment;
      task.status := BLOCKED;
    }

    /** The system call `sleep` of the running task. */
    method SleepCall(milliseconds: nat)
      requires Valid() && milliseconds < TIME_LIMIT
      requires currentTask.linkedListNode !in mutex.waiters.contents + sleepingTaskList.contents
      modifies this, currentTask, currentTask.linkedListNode, sleepingTaskList, sleepingTaskList.contents
      ensures Valid() && state == Sleep(old(state), milliseconds)
    {
      assert taskTable[currentTask.processId] == currentTask && state.current == currentTask.processId;
      hide Valid;
      PutToSleep(currentTask, milliseconds);
      Schedule();
    }

    /** The clock interrupt. */
    method Handler()
      requires Valid()
      modifies this, sleepingTaskList, sleepingTaskList.contents, TaskSet(taskTable[..])`status
      ensures Valid() && state == Tick(old(state))
    {
      hide Valid;
      AdvanceClock();
      WakeupSleptEnoughTasks();
      Schedule();
    }

    method AdvanceClock()
      requires Valid()
      modifies `timePassedSinceBoot, `state
      ensures Valid() && state == old(state).(time := (old(state).time + JIFFY) % TIME_LIMIT)
    {
      hide Entries, LinkedList.Chained, Queue, Owners;
      timePassedSinceBoot := (timePassedSinceBoot + 1000 / INTERRUPT_FREQUENCY) % TIME_LIMIT;
      state := state.(time := timePassedSinceBoot);
    }

    /** The first free place of the table, or -1. */
    method FindFree() returns (pid: int)
      requires Valid()
      ensures if pid < 0 then forall i: Id :: state.table[i].Present?
              else pid < TASK_TABLE_SIZE && state.table[pid].Empty? && forall i: Id :: i < pid ==> state.table[i].Present?
    {
      hide Entries, LinkedList.Chained, Queue, Owners;
      for i := 0 to TASK_TABLE_SIZE
        invariant forall j: Id :: j < i ==> state.table[j].Present?
      {
        EntryAt(taskTable[..], state.table, i);
        if taskTable[i] == null {
          return i;
        }
      }
      return -1;
    }

    /** A new task gets the first free place; without one the kernel stops. */
    method Create(leftStatus: TaskStatus, leftMoment: int) returns (task: Task?)
      requires Valid()
      modifies taskTable, `state
      ensures Valid() && (task == null <==> forall i: Id :: old(state).table[i].Present?)
      ensures task == null ==> state == old(state)
      ensures task != null ==>
                && old(state).table[task.processId].Empty? && (forall i: Id :: i < task.processId ==> old(state).table[i].Present?)
                && state == old(state).(table := old(state).table[task.processId := Present(leftStatus, leftMoment)])
    {
      var pid := FindFree();
      if pid < 0 {
        return null;
      }
      var t := new Task(pid, leftStatus, leftMoment);
      Admit(t);
      task := t;
    }

    method Admit(task: Task)
      requires Valid() && taskTable[task.processId] == null && task.linkedListNode.owner == task.processId
      modifies taskTable, `state
      ensures Valid() && state == old(state).(table := old(state).table[task.processId := Present(task.status, task.wakeupMoment)])
    {
      hide LinkedList.Chained, Owners;
      taskTable[task.processId] := task;
      state := state.(table := state.table[task.processId := Present(task.status, task.wakeupMoment)]);
    }
  }
}
