/** What one interrupts-off section of the kernel does to the tasks, the sleep queue and a mutex, as functions on values.

    A task is named by its place in the task table. */
module Scheduling {

  const TASK_TABLE_SIZE := 256
  /** Time is kept in a 64-bit counter. */
  const TIME_LIMIT := 0x1_0000_0000_0000_0000

  datatype TaskStatus = READY | BLOCKED | DIED

  datatype Entry =
    | Empty
    | Present(status: TaskStatus, wakeupMoment: int)

  type Table = t: seq<Entry> | |t| == TASK_TABLE_SIZE witness seq(TASK_TABLE_SIZE, _ => Empty)

  type Id = i: nat | i < TASK_TABLE_SIZE

  datatype State = State(
    table: Table,
    current: Id,
    prevId: Id,
    time: int,
    sleepers: seq<Id>,
    occupied: bool,
    waiters: seq<Id>)

  predicate Ready(table: Table, i: Id) {
    table[i].Present? && table[i].status == READY
  }

  predicate Blocked(table: Table, i: Id) {
    table[i].Present? && table[i].status == BLOCKED
  }

  function WithStatus(table: Table, i: Id, status: TaskStatus): Table {
    if table[i].Present? then table[i := table[i].(status := status)] else table
  }

  // ----- schedule -----

  /** How many steps forward `i` is from `prev` in the table, the entry of `prev` itself being the last. */
  function Distance(prev: Id, i: Id): (d: nat)
    ensures 1 <= d <= TASK_TABLE_SIZE
  {
    if i > prev then i - prev else i + TASK_TABLE_SIZE - prev
  }

  /** The task that `schedule` picks is the first READY one after `prev`. */
  ghost predicate FirstReady(table: Table, prev: Id, i: Id) {
    Ready(table, i) && forall j: Id :: Ready(table, j) ==> Distance(prev, i) <= Distance(prev, j)
  }

  ghost predicate NoneReady(table: Table) {
    forall j: Id :: !Ready(table, j)
  }

  /** The entry `d` steps after `prev`. */
  function Forward(prev: Id, d: nat): Id
    requires d <= TASK_TABLE_SIZE
  {
    if prev + d < TASK_TABLE_SIZE then prev + d else prev + d - TASK_TABLE_SIZE
  }

  /** The scan from `d` steps after `prev` on; without a READY task it comes back to `prev`. */
  function Scan(table: Table, prev: Id, d: nat): Id
    requires 1 <= d <= TASK_TABLE_SIZE
    decreases TASK_TABLE_SIZE - d
  {
    var i := Forward(prev, d);
    if Ready(table, i) || d == TASK_TABLE_SIZE then i else Scan(table, prev, d + 1)
  }

  lemma {:induction false} ScanFinds(table: Table, prev: Id, d: nat)
    requires 1 <= d <= TASK_TABLE_SIZE
    requires forall j: Id :: Ready(table, j) ==> d <= Distance(prev, j)
    ensures if NoneReady(table) then Scan(table, prev, d) == prev else FirstReady(table, prev, Scan(table, prev, d))
    decreases TASK_TABLE_SIZE - d
  {
    var i := Forward(prev, d);
    assert Distance(prev, i) == d;
    if !Ready(table, i) && d < TASK_TABLE_SIZE {
      forall j: Id | Ready(table, j)
        ensures d + 1 <= Distance(prev, j)
      {
        assert j == Forward(prev, Distance(prev, j));
      }
      ScanFinds(table, prev, d + 1);
    } else if d == TASK_TABLE_SIZE {
      forall j: Id | Ready(table, j)
        ensures j == i
      {
        assert j == Forward(prev, Distance(prev, j));
      }
    }
  }

  /** `schedule`: the chosen entry is remembered; an empty one stands for task 0. */
  function Schedule(s: State): State {
    var i := Scan(s.table, s.prevId, 1);
    s.(prevId := i, current := if s.table[i].Empty? then 0 else i)
  }

  lemma ScheduleChooses(s: State)
    ensures NoneReady(s.table) ==> Schedule(s).prevId == s.prevId && !Ready(s.table, Schedule(s).current)
    ensures !NoneReady(s.table) ==>
              FirstReady(s.table, s.prevId, Schedule(s).prevId) && Schedule(s).current == Schedule(s).prevId
  {
    ScanFinds(s.table, s.prevId, 1);
  }

  /** The state just before each of a series of calls of `schedule`, and what each call has chosen. */
  ghost predicate Calls(tables: seq<Table>, prevs: seq<Id>) {
    && |prevs| == |tables| + 1
    && forall k :: 0 <= k < |tables| ==> Scan(tables[k], prevs[k], 1) == prevs[k + 1]
  }

  /** A task that is READY at every call comes nearer until it is chosen. */
  lemma {:induction false} Approaches(tables: seq<Table>, prevs: seq<Id>, i: Id, k: nat)
    requires Calls(tables, prevs) && k <= |tables|
    requires forall j :: 0 <= j < k ==> Ready(tables[j], i)
    ensures (exists j :: 1 <= j <= k && prevs[j] == i) || Distance(prevs[k], i) <= Distance(prevs[0], i) - k
  {
    if k > 0 {
      Approaches(tables, prevs, i, k - 1);
      if forall j :: 1 <= j <= k - 1 ==> prevs[j] != i {
        ScanFinds(tables[k - 1], prevs[k - 1], 1);
        assert FirstReady(tables[k - 1], prevs[k - 1], prevs[k]);
        if prevs[k] != i {
          Nearer(prevs[k - 1], prevs[k], i);
        }
      }
    }
  }

  lemma Nearer(prev: Id, next: Id, i: Id)
    requires Distance(prev, next) <= Distance(prev, i) && next != i
    ensures Distance(next, i) < Distance(prev, i)
  {
  }

  /** Round robin: whatever happens to the other tasks, a task that stays READY is chosen within one round. */
  lemma Fair(tables: seq<Table>, prevs: seq<Id>, i: Id)
    requires Calls(tables, prevs) && |tables| == TASK_TABLE_SIZE
    requires forall j :: 0 <= j < |tables| ==> Ready(tables[j], i)
    ensures exists j :: 1 <= j <= |tables| && prevs[j] == i
  {
    Approaches(tables, prevs, i, TASK_TABLE_SIZE);
  }

  // ----- The sleep queue -----

  /** All of some tasks become READY. */
  ghost function Readied(table: Table, ids: seq<Id>): Table {
    seq(TASK_TABLE_SIZE, i requires 0 <= i < TASK_TABLE_SIZE =>
      if i in ids && table[i].Present? then table[i].(status := READY) else table[i])
  }

  ghost predicate AllPresent(table: Table, ids: seq<Id>) {
    forall k :: 0 <= k < |ids| ==> table[ids[k]].Present?
  }

  function Moment(table: Table, i: Id): int {
    if table[i].Present? then table[i].wakeupMoment else 0
  }

  ghost predicate Sorted(table: Table, ids: seq<Id>) {
    forall j, k :: 0 <= j < k < |ids| ==> Moment(table, ids[j]) <= Moment(table, ids[k])
  }

  /** How many tasks at the head of the queue are due. */
  ghost function Due(table: Table, ids: seq<Id>, time: int): (k: nat)
    ensures k <= |ids| && forall j :: 0 <= j < k ==> Moment(table, ids[j]) <= time
    ensures k < |ids| ==> Moment(table, ids[k]) > time
  {
    if ids == [] || Moment(table, ids[0]) > time then 0
    else 1 + Due(table, ids[1..], time)
  }

  ghost function Wakeup(s: State): State {
    var k := Due(s.table, s.sleepers, s.time);
    s.(table := Readied(s.table, s.sleepers[..k]), sleepers := s.sleepers[k..])
  }

  /** With a sorted queue exactly the tasks that are due are woken; the others stay in their order. */
  lemma WakeupExact(s: State, i: Id)
    requires AllPresent(s.table, s.sleepers) && Sorted(s.table, s.sleepers) && i in s.sleepers
    ensures var s' := Wakeup(s);
      if s.table[i].wakeupMoment <= s.time then Ready(s'.table, i) && (NoRepeats(s.sleepers) ==> i !in s'.sleepers)
      else i in s'.sleepers && (NoRepeats(s.sleepers) ==> s'.table[i] == s.table[i])
  {
    var k := Due(s.table, s.sleepers, s.time);
    var p :| 0 <= p < |s.sleepers| && s.sleepers[p] == i;
    if p < k {
      assert s.sleepers[..k][p] == i;
    } else {
      assert s.sleepers[k..][p - k] == i;
      assert Moment(s.table, s.sleepers[k]) > s.time;
    }
  }

  ghost predicate NoRepeats(ids: seq<Id>) {
    forall j, k :: 0 <= j < k < |ids| ==> ids[j] != ids[k]
  }

  /** The first place whose task wakes up no earlier than `moment`. */
  ghost function Place(table: Table, ids: seq<Id>, moment: int): (k: nat)
    ensures k <= |ids| && forall j :: 0 <= j < k ==> Moment(table, ids[j]) < moment
    ensures k < |ids| ==> Moment(table, ids[k]) >= moment
  {
    if ids == [] || Moment(table, ids[0]) >= moment then 0
    else 1 + Place(table, ids[1..], moment)
  }

  /** Task `i` goes to sleep; nobody sleeps for no time at all. */
  ghost function PutToSleep(s: State, i: Id, milliseconds: nat): State {
    if milliseconds == 0 then s
    else
      var moment := (s.time + milliseconds) % TIME_LIMIT;
      var k := Place(s.table, s.sleepers, moment);
      s.(table := s.table[i := Present(BLOCKED, moment)], sleepers := s.sleepers[..k] + [i] + s.sleepers[k..])
  }

  lemma PutToSleepKeepsSorted(s: State, i: Id, milliseconds: nat)
    requires AllPresent(s.table, s.sleepers) && Sorted(s.table, s.sleepers) && NoRepeats(s.sleepers) && i !in s.sleepers
    ensures var s' := PutToSleep(s, i, milliseconds);
      && AllPresent(s'.table, s'.sleepers) && Sorted(s'.table, s'.sleepers) && NoRepeats(s'.sleepers)
      && forall j: Id :: j in s'.sleepers <==> j in s.sleepers || (j == i && milliseconds > 0)
  {
    hide Sorted, NoRepeats, AllPresent;
    if milliseconds > 0 {
      var moment := (s.time + milliseconds) % TIME_LIMIT;
      InsertKeepsSorted(s.table, s.sleepers, i, moment, Place(s.table, s.sleepers, moment));
    }
  }

  lemma InsertKeepsSorted(table: Table, ids: seq<Id>, i: Id, moment: int, k: nat)
    requires AllPresent(table, ids) && Sorted(table, ids) && NoRepeats(ids) && i !in ids
    requires k <= |ids| && forall j :: 0 <= j < k ==> Moment(table, ids[j]) <= moment
    requires k < |ids| ==> Moment(table, ids[k]) >= moment
    ensures var table', ids' := table[i := Present(BLOCKED, moment)], ids[..k] + [i] + ids[k..];
      && AllPresent(table', ids') && Sorted(table', ids') && NoRepeats(ids')
      && forall j: Id :: j in ids' <==> j in ids || j == i
  {
    var table', ids' := table[i := Present(BLOCKED, moment)], ids[..k] + [i] + ids[k..];
    Members(ids, i, k);
    forall j | 0 <= j < |ids'|
      ensures ids'[j] == if j < k then ids[j] else if j == k then i else ids[j - 1]
      ensures table'[ids'[j]] == if j == k then Present(BLOCKED, moment) else table[ids'[j]]
    {
    }
    forall p, q | 0 <= p < q < |ids'|
      ensures Moment(table', ids'[p]) <= Moment(table', ids'[q]) && ids'[p] != ids'[q]
    {
      var p', q' := if p < k then p else p - 1, if q < k then q else q - 1;
      if p != k && q != k {
        assert Moment(table, ids[p']) <= Moment(table, ids[q']);
      }
    }
  }

  lemma Members(ids: seq<Id>, i: Id, k: nat)
    requires k <= |ids|
    ensures forall j: Id :: j in ids[..k] + [i] + ids[k..] <==> j in ids || j == i
  {
    assert ids == ids[..k] + ids[k..];
  }

  ghost predicate DueAt(e: Entry, time: int)
    requires e.Present?
  {
    e.wakeupMoment <= time
  }

  /** A sleeper is due no earlier than asked for, exactly if the counter of milliseconds does not wrap around. */
  lemma NeverEarly(s: State, i: Id, milliseconds: nat)
    requires AllPresent(s.table, s.sleepers) && i !in s.sleepers && 0 <= s.time < TIME_LIMIT && 0 < milliseconds < TIME_LIMIT
    ensures var e := PutToSleep(s, i, milliseconds).table[i];
      && e.Present?
      && ((forall t :: s.time <= t < s.time + milliseconds ==> !DueAt(e, t)) <==> s.time + milliseconds < TIME_LIMIT)
  {
    var e := PutToSleep(s, i, milliseconds).table[i];
    if s.time + milliseconds >= TIME_LIMIT {
      assert e.wakeupMoment == s.time + milliseconds - TIME_LIMIT;
      assert DueAt(e, s.time);
    }
  }

  // ----- The mutex -----

  /** One pass of `lock` up to the point where the task owns the mutex or another task runs. */
  ghost function Lock(s: State): State {
    if s.occupied then Schedule(Waiting(s)) else s.(occupied := true)
  }

  ghost function Waiting(s: State): State {
    s.(waiters := s.waiters + [s.current], table := WithStatus(s.table, s.current, BLOCKED))
  }

  ghost function Unlock(s: State): State {
    s.(occupied := false, table := Readied(s.table, s.waiters), waiters := [])
  }

  /** The system call: to sleep, then on to the next task. */
  ghost function Sleep(s: State, milliseconds: nat): State {
    Schedule(PutToSleep(s, s.current, milliseconds))
  }

  // ----- Blocking -----

  /** Some task besides the running one is READY. */
  ghost predicate OtherReady(s: State) {
    exists j: Id :: j != s.current && Ready(s.table, j)
  }

  /** After the running task has been blocked, a READY task runs if and only if there is another one. */
  lemma BlockedRuns(s: State, blocked: State)
    requires blocked.current == s.current && !Ready(blocked.table, s.current)
    requires forall j: Id :: j != s.current ==> blocked.table[j] == s.table[j]
    ensures var s' := Schedule(blocked); Ready(s'.table, s'.current) <==> OtherReady(s)
  {
    ScheduleChooses(blocked);
    if OtherReady(s) {
      var j: Id :| j != s.current && Ready(s.table, j);
      assert Ready(blocked.table, j);
    } else {
      forall j: Id
        ensures !Ready(blocked.table, j)
      {
        assert j != s.current ==> !Ready(s.table, j);
      }
    }
  }

  /** A task that waits for the mutex hands over to a READY one, exactly if there is another READY task. */
  lemma LockHandsOver(s: State)
    requires s.occupied && Ready(s.table, s.current)
    ensures Ready(Lock(s).table, Lock(s).current) <==> OtherReady(s)
  {
    BlockedRuns(s, Waiting(s));
  }

  /** The same for a task that goes to sleep. */
  lemma SleepHandsOver(s: State, milliseconds: nat)
    requires milliseconds > 0
    ensures Ready(Sleep(s, milliseconds).table, Sleep(s, milliseconds).current) <==> OtherReady(s)
  {
    BlockedRuns(s, PutToSleep(s, s.current, milliseconds));
  }

  /** Without another READY task the blocked one goes on running and, at its next pass, queues itself again. */
  lemma AloneQueuesTwice(s: State)
    requires s.occupied && Ready(s.table, s.current) && s.prevId == s.current && !OtherReady(s)
    ensures Lock(Lock(s)).waiters == s.waiters + [s.current, s.current]
  {
    LockHandsOver(s);
    var waiting := Waiting(s);
    forall j: Id
      ensures !Ready(waiting.table, j)
    {
      assert j != s.current ==> !Ready(s.table, j);
    }
    ScanFinds(waiting.table, s.prevId, 1);
  }

  /** Milliseconds between two clock interrupts. */
  const JIFFY := 10

  ghost function Tick(s: State): State {
    Schedule(Wakeup(s.(time := (s.time + JIFFY) % TIME_LIMIT)))
  }
}
