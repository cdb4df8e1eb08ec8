/** All interleavings of the interrupts-off sections of the tasks: locking, unlocking, sleeping, clock interrupts. */
module TaskMachine {
  import opened Scheduling

  /** Where a task is: outside the mutex, inside a call of `lock` that has not returned, or between `lock` and `unlock`. */
  datatype Phase = Outside | Locking | Holding

  type Phases = p: seq<Phase> | |p| == TASK_TABLE_SIZE witness seq(TASK_TABLE_SIZE, _ => Outside)

  datatype Machine = Machine(s: State, phase: Phases)

  datatype Event =
    | LockPass
    | UnlockCall
    | SleepCall(milliseconds: nat)
    | ClockInterrupt
    /** The new task is in a page that nobody has filled; `status` and `wakeupMoment` are what the page held before. */
    | Create(pid: Id, status: TaskStatus, wakeupMoment: int)

  /** Who may do what: a task unlocks only what it holds, does not ask again for what it holds, and makes no system call
      from inside `lock`. */
  ghost predicate Allowed(m: Machine, e: Event) {
    var i := m.s.current;
    match e
    case LockPass => m.phase[i] != Holding
    case UnlockCall => m.phase[i] == Holding
    case SleepCall(_) => m.phase[i] != Locking
    case ClockInterrupt => true
    case Create(pid, _, _) => m.s.table[pid].Empty? && forall j: Id :: j < pid ==> m.s.table[j].Present?
  }

  /** A task blocks only while another one is READY, and the page of a new task does not say by chance that it is blocked. */
  ghost predicate Careful(m: Machine, e: Event) {
    match e
    case LockPass => m.s.occupied ==> OtherReady(m.s)
    case SleepCall(milliseconds) => milliseconds > 0 ==> OtherReady(m.s)
    case Create(_, status, _) => status != BLOCKED
    case _ => true
  }

  ghost predicate Enabled(m: Machine, e: Event) {
    Allowed(m, e) && Careful(m, e)
  }

  ghost function After(m: Machine, e: Event): Machine {
    var i := m.s.current;
    match e
    case LockPass => Machine(Lock(m.s), m.phase[i := if m.s.occupied then Locking else Holding])
    case UnlockCall => Machine(Unlock(m.s), m.phase[i := Outside])
    case SleepCall(milliseconds) => m.(s := Sleep(m.s, milliseconds))
    case ClockInterrupt => m.(s := Tick(m.s))
    case Create(pid, status, wakeupMoment) => m.(s := m.s.(table := m.s.table[pid := Present(status, wakeupMoment)]))
  }

  // ----- The invariant -----

  /** Every blocked task waits in exactly one queue, and only there. */
  ghost predicate Queued(s: State) {
    && AllPresent(s.table, s.sleepers) && NoRepeats(s.sleepers) && NoRepeats(s.waiters)
    && (forall i: Id :: i in s.sleepers ==> i !in s.waiters)
    && (forall i: Id :: Blocked(s.table, i) <==> i in s.sleepers || i in s.waiters)
  }

  /** At most one task holds the mutex, and `occupied` says whether one does. */
  ghost predicate Exclusive(m: Machine) {
    && (forall i: Id, j: Id :: m.phase[i] == Holding && m.phase[j] == Holding ==> i == j)
    && (m.s.occupied <==> exists i: Id :: m.phase[i] == Holding)
  }

  /** Who waits for the mutex is inside `lock`, and there is somebody who will wake him. */
  ghost predicate NobodyForgotten(m: Machine) {
    && (forall i: Id :: i in m.s.waiters ==> m.phase[i] == Locking)
    && (!m.s.occupied ==> m.s.waiters == [])
  }

  ghost predicate Invariant(m: Machine) {
    && Ready(m.s.table, m.s.current)
    && Queued(m.s) && Sorted(m.s.table, m.s.sleepers)
    && Exclusive(m) && NobodyForgotten(m)
  }

  /** Only task 0 is there, and it runs. */
  ghost predicate Initial(m: Machine) {
    && Ready(m.s.table, 0) && (forall i: Id :: i != 0 ==> m.s.table[i].Empty?)
    && m.s.current == 0 && m.s.prevId == 0 && m.s.time == 0
    && m.s.sleepers == [] && m.s.waiters == [] && !m.s.occupied
    && forall i: Id :: m.phase[i] == Outside
  }

  lemma InitiallyInvariant(m: Machine)
    requires Initial(m)
    ensures Invariant(m)
  {
  }

  // ----- Every step keeps the invariant -----

  lemma ScheduleKeeps(s: State)
    ensures var s' := Schedule(s); s' == s.(prevId := s'.prevId, current := s'.current)
  {
  }

  lemma WaitKeepsQueues(s: State)
    requires Queued(s) && Ready(s.table, s.current)
    ensures Queued(Waiting(s))
  {
    var i := s.current;
    var ids := s.waiters + [i];
    assert forall j: Id :: j in ids <==> j in s.waiters || j == i;
    assert i !in s.waiters && i !in s.sleepers;
    assert NoRepeats(ids);
  }

  /** A pass of `lock` keeps the invariant, exactly if the task does not block or another one is READY. */
  lemma LockKeeps(m: Machine)
    requires Invariant(m) && Allowed(m, LockPass)
    ensures Invariant(After(m, LockPass)) <==> Careful(m, LockPass)
  {
    var m', i := After(m, LockPass), m.s.current;
    if m.s.occupied {
      LockHandsOver(m.s);
      hide OtherReady, Schedule;
      WaitKeepsQueues(m.s);
      ScheduleKeeps(Waiting(m.s));
      var holder: Id :| m.phase[holder] == Holding;
      assert m'.phase[holder] == Holding;
    } else {
      assert m'.phase[i] == Holding;
    }
  }

  lemma UnlockKeeps(m: Machine)
    requires Invariant(m) && Enabled(m, UnlockCall)
    ensures Invariant(After(m, UnlockCall))
    ensures forall i :: i in m.s.waiters ==> Ready(After(m, UnlockCall).s.table, i)
  {
  }

  /** Going to sleep keeps the invariant, exactly if another task is READY. */
  lemma SleepKeeps(m: Machine, milliseconds: nat)
    requires Invariant(m) && Allowed(m, SleepCall(milliseconds))
    ensures Invariant(After(m, SleepCall(milliseconds))) <==> Careful(m, SleepCall(milliseconds))
  {
    PutToSleepKeepsSorted(m.s, m.s.current, milliseconds);
    var asleep := PutToSleep(m.s, m.s.current, milliseconds);
    ScheduleKeeps(asleep);
    assert Queued(asleep);
    if milliseconds > 0 {
      SleepHandsOver(m.s, milliseconds);
    } else {
      ScheduleChooses(m.s);
    }
  }

  lemma SplitQueue(ids: seq<Id>, k: nat)
    requires NoRepeats(ids) && k <= |ids|
    ensures NoRepeats(ids[k..])
    ensures forall j: Id :: j in ids[k..] <==> j in ids && j !in ids[..k]
  {
    assert ids == ids[..k] + ids[k..];
  }

  lemma SuffixSorted(table: Table, ids: seq<Id>, k: nat, table': Table)
    requires AllPresent(table, ids) && Sorted(table, ids) && k <= |ids|
    requires forall j: Id :: j in ids[k..] ==> table'[j] == table[j]
    ensures AllPresent(table', ids[k..]) && Sorted(table', ids[k..])
  {
    assert forall j :: 0 <= j < |ids| - k ==> ids[k..][j] == ids[k + j];
  }

  lemma WakeupKeepsQueues(s: State)
    requires Queued(s) && Sorted(s.table, s.sleepers)
    ensures var s' := Wakeup(s);
      && Queued(s') && Sorted(s'.table, s'.sleepers)
      && (forall j: Id :: Ready(s.table, j) ==> Ready(s'.table, j))
      && s' == s.(table := s'.table, sleepers := s'.sleepers)
  {
    var k := Due(s.table, s.sleepers, s.time);
    SplitQueue(s.sleepers, k);
    var due, rest := s.sleepers[..k], s.sleepers[k..];
    assert forall j: Id :: j in due ==> j in s.sleepers;
    var table := Readied(s.table, due);
    SuffixSorted(s.table, s.sleepers, k, table);
    hide NoRepeats, Due, Readied, Sorted, AllPresent;
    forall j: Id
      ensures Blocked(table, j) <==> j in rest || j in s.waiters
    {
      ReadiedAt(s.table, due, j);
    }
    forall j: Id | Ready(s.table, j)
      ensures Ready(table, j)
    {
      ReadiedAt(s.table, due, j);
    }
  }

  lemma ReadiedAt(table: Table, ids: seq<Id>, j: Id)
    ensures Readied(table, ids)[j] == if j in ids && table[j].Present? then table[j].(status := READY) else table[j]
  {
  }

  lemma TickKeeps(m: Machine)
    requires Invariant(m)
    ensures Invariant(After(m, ClockInterrupt))
  {
    var s := m.s.(time := (m.s.time + JIFFY) % TIME_LIMIT);
    assert Queued(s);
    WakeupKeepsQueues(s);
    hide Wakeup, Queued, Sorted;
    ScheduleKeeps(Wakeup(s));
    ScheduleChooses(Wakeup(s));
  }

  /** A new task keeps the invariant, exactly if the page it is made from does not say that it is blocked. */
  lemma CreateKeeps(m: Machine, e: Event)
    requires Invariant(m) && e.Create? && Allowed(m, e)
    ensures Invariant(After(m, e)) <==> Careful(m, e)
  {
    assert Blocked(After(m, e).s.table, e.pid) <==> e.status == BLOCKED;
    assert !Blocked(m.s.table, e.pid);
  }

  // ----- Runs -----

  ghost predicate Run(ms: seq<Machine>, es: seq<Event>) {
    && |ms| == |es| + 1 && Initial(ms[0])
    && forall k :: 0 <= k < |es| ==> Enabled(ms[k], es[k]) && ms[k + 1] == After(ms[k], es[k])
  }

  lemma StepKeeps(m: Machine, e: Event)
    requires Invariant(m) && Allowed(m, e)
    ensures Invariant(After(m, e)) <==> Careful(m, e)
  {
    match e
    case LockPass => LockKeeps(m);
    case UnlockCall => UnlockKeeps(m);
    case SleepCall(milliseconds) => SleepKeeps(m, milliseconds);
    case ClockInterrupt => TickKeeps(m);
    case Create(_, _, _) => CreateKeeps(m, e);
  }

  lemma {:induction false} Always(ms: seq<Machine>, es: seq<Event>, k: nat)
    requires Run(ms, es) && k < |ms|
    ensures Invariant(ms[k])
  {
    if k == 0 {
      InitiallyInvariant(ms[0]);
    } else {
      Always(ms, es, k - 1);
      StepKeeps(ms[k - 1], es[k - 1]);
    }
  }

  /** At any time at most one task is between `lock` and `unlock`, and no task gets through `lock` while one is. */
  lemma MutualExclusion(ms: seq<Machine>, es: seq<Event>, k: nat, i: Id, j: Id)
    requires Run(ms, es) && k < |ms| && ms[k].phase[i] == Holding
    ensures ms[k].phase[j] == Holding ==> j == i
    ensures ms[k].s.occupied && (k < |es| && j != i ==> ms[k + 1].phase[j] != Holding || ms[k + 1].phase[i] != Holding)
  {
    Always(ms, es, k);
    if k < |es| {
      Always(ms, es, k + 1);
    }
  }

  /** A blocked task is queued exactly once. If it waits for the mutex, some other task holds the mutex, and when that
      task unlocks it, the blocked one becomes READY. */
  lemma NoLostWakeup(ms: seq<Machine>, es: seq<Event>, k: nat, i: Id)
    requires Run(ms, es) && k < |ms| && Blocked(ms[k].s.table, i)
    ensures multiset(ms[k].s.sleepers + ms[k].s.waiters)[i] == 1
    ensures i in ms[k].s.waiters ==> exists h: Id :: h != i && ms[k].phase[h] == Holding
    ensures i in ms[k].s.waiters && k < |es| && es[k].UnlockCall? ==> Ready(ms[k + 1].s.table, i)
  {
    Always(ms, es, k);
    var m := ms[k];
    Once(m.s.sleepers, i);
    Once(m.s.waiters, i);
    if i in m.s.waiters {
      var h: Id :| m.phase[h] == Holding;
      assert m.phase[i] == Locking;
      if k < |es| && es[k].UnlockCall? {
        UnlockKeeps(m);
      }
    }
  }

  lemma {:induction false} Once(ids: seq<Id>, i: Id)
    requires NoRepeats(ids)
    ensures multiset(ids)[i] == if i in ids then 1 else 0
  {
    if ids != [] {
      var n := |ids| - 1;
      Once(ids[..n], i);
      assert ids == ids[..n] + [ids[n]];
    }
  }

  // ----- What each step changes -----

  /** Who becomes BLOCKED or READY: a task blocks only by its own step, and becomes READY only as a waiter when the mutex is
      unlocked or as a sleeper whose moment has come. */
  ghost predicate EntryStep(s: State, e: Event, i: Id, s': State) {
    var was, now := s.table[i], s'.table[i];
    match e
    case LockPass => if s.occupied && i == s.current then was.Present? && now == was.(status := BLOCKED) else now == was
    case UnlockCall => if i in s.waiters then was.Present? && now == was.(status := READY) else now == was
    case SleepCall(milliseconds) =>
      if milliseconds > 0 && i == s.current then now == Present(BLOCKED, (s.time + milliseconds) % 0x1_0000_0000_0000_0000) else now == was
    case ClockInterrupt =>
      if i in s.sleepers && was.Present? && was.wakeupMoment <= s'.time then now == was.(status := READY) else now == was
    case Create(pid, status, wakeupMoment) => if i == pid then now == Present(status, wakeupMoment) else now == was
  }

  ghost predicate TableStep(s: State, e: Event, s': State) {
    forall i: Id :: EntryStep(s, e, i, s')
  }

  /** How the two queues, the mutex and the clock change. */
  ghost predicate QueueStep(s: State, e: Event, s': State) {
    && s'.waiters == (if e.LockPass? && s.occupied then s.waiters + [s.current] else if e.UnlockCall? then [] else s.waiters)
    && s'.occupied == (e.LockPass? || (s.occupied && !e.UnlockCall?))
    && s'.time == (if e.ClockInterrupt? then (s.time + 10) % 0x1_0000_0000_0000_0000 else s.time)
    && if e.ClockInterrupt? then SplitByTime(s.table, s.sleepers, s'.sleepers, s'.time)
       else if e.SleepCall? && e.milliseconds > 0 then InsertedOnce(s.sleepers, s.current, s'.sleepers)
       else s'.sleepers == s.sleepers
  }

  /** `rest` is what is left of the queue when those that are due have gone from its head. */
  ghost predicate SplitByTime(table: Table, ids: seq<Id>, rest: seq<Id>, time: int) {
    exists k :: 0 <= k <= |ids| && rest == ids[k..] && forall j :: 0 <= j < |ids| ==> (j < k <==> Moment(table, ids[j]) <= time)
  }

  ghost predicate InsertedOnce(ids: seq<Id>, i: Id, ids': seq<Id>) {
    exists k :: 0 <= k <= |ids| && ids' == ids[..k] + [i] + ids[k..]
  }

  /** Who runs next: without a call of `schedule` whoever runs now, and otherwise the next READY task in the table. */
  ghost predicate NextStep(s: State, e: Event, s': State) {
    if e.ClockInterrupt? || e.SleepCall? || (e.LockPass? && s.occupied) then FirstReady(s'.table, s.prevId, s'.current) && s'.prevId == s'.current
    else s'.current == s.current && s'.prevId == s.prevId
  }

  ghost predicate PhaseStep(m: Machine, e: Event, m': Machine) {
    forall i: Id ::
      m'.phase[i] ==
        if i == m.s.current && e.LockPass? then if m.s.occupied then Locking else Holding
        else if i == m.s.current && e.UnlockCall? then Outside
        else m.phase[i]
  }

  lemma EntryChanges(m: Machine, e: Event, i: Id)
    requires Invariant(m) && Enabled(m, e)
    ensures EntryStep(m.s, e, i, After(m, e).s)
  {
    match e
    case ClockInterrupt =>
      if Blocked(m.s.table, i) {
        TickOn(m.s, i);
      } else {
        TickOther(m.s, i);
      }
    case _ =>
  }

  lemma TableChanges(m: Machine, e: Event)
    requires Invariant(m) && Enabled(m, e)
    ensures TableStep(m.s, e, After(m, e).s)
  {
    var s' := After(m, e).s;
    forall i: Id
      ensures EntryStep(m.s, e, i, s')
    {
      EntryChanges(m, e, i);
    }
  }

  lemma TickOther(s: State, i: Id)
    requires Queued(s) && !Blocked(s.table, i)
    ensures Tick(s).table[i] == s.table[i] && i !in s.sleepers
  {
    var t := s.(time := (s.time + JIFFY) % TIME_LIMIT);
    var k := Due(t.table, t.sleepers, t.time);
    SplitQueue(t.sleepers, k);
    ReadiedAt(t.table, t.sleepers[..k], i);
  }

  lemma QueueChanges(m: Machine, e: Event)
    requires Invariant(m) && Enabled(m, e)
    ensures QueueStep(m.s, e, After(m, e).s)
  {
    match e
    case ClockInterrupt => TickSplits(m.s);
    case SleepCall(milliseconds) =>
      if milliseconds > 0 {
        var k := Place(m.s.table, m.s.sleepers, (m.s.time + milliseconds) % TIME_LIMIT);
        assert After(m, e).s.sleepers == m.s.sleepers[..k] + [m.s.current] + m.s.sleepers[k..];
      }
    case _ =>
  }

  lemma TickSplits(s: State)
    requires Sorted(s.table, s.sleepers)
    ensures SplitByTime(s.table, s.sleepers, Tick(s).sleepers, Tick(s).time)
  {
    var t := s.(time := (s.time + JIFFY) % TIME_LIMIT);
    var k := Due(t.table, t.sleepers, t.time);
    forall j | 0 <= j < |t.sleepers|
      ensures j < k <==> Moment(t.table, t.sleepers[j]) <= t.time
    {
      if j > k {
        assert Moment(t.table, t.sleepers[k]) <= Moment(t.table, t.sleepers[j]);
      }
    }
    assert Tick(s).sleepers == t.sleepers[k..];
  }

  lemma NextChanges(m: Machine, e: Event)
    requires Invariant(m) && Enabled(m, e)
    ensures NextStep(m.s, e, After(m, e).s)
  {
    StepKeeps(m, e);
    AfterSchedule(m, e);
    if Schedules(m, e) {
      ScheduleChooses(BeforeSchedule(m, e));
    }
  }

  /** Every step of every run changes exactly this. */
  lemma StepExact(ms: seq<Machine>, es: seq<Event>, k: nat)
    requires Run(ms, es) && k < |es|
    ensures TableStep(ms[k].s, es[k], ms[k + 1].s)
    ensures QueueStep(ms[k].s, es[k], ms[k + 1].s) && NextStep(ms[k].s, es[k], ms[k + 1].s) && PhaseStep(ms[k], es[k], ms[k + 1])
  {
    Always(ms, es, k);
    TableChanges(ms[k], es[k]);
    QueueChanges(ms[k], es[k]);
    NextChanges(ms[k], es[k]);
  }

  // ----- Round robin over runs -----

  /** Whether a step ends in a call of `schedule`. */
  ghost predicate Schedules(m: Machine, e: Event) {
    e.ClockInterrupt? || e.SleepCall? || (e.LockPass? && m.s.occupied)
  }

  /** How many of the first `k` steps do. */
  ghost function ScheduleCalls(ms: seq<Machine>, es: seq<Event>, k: nat): nat
    requires k <= |es| < |ms|
  {
    if k == 0 then 0 else ScheduleCalls(ms, es, k - 1) + if Schedules(ms[k - 1], es[k - 1]) then 1 else 0
  }

  /** Task `i` is READY from step `a` to step `k`. */
  ghost predicate StaysReady(ms: seq<Machine>, i: Id, a: nat, k: nat)
    requires k < |ms|
  {
    forall j :: a <= j <= k ==> Ready(ms[j].s.table, i)
  }

  /** In one of the steps from `a` to `k`, `schedule` has chosen `i`. */
  ghost predicate Chosen(ms: seq<Machine>, es: seq<Event>, i: Id, a: nat, k: nat)
    requires k <= |es| < |ms|
  {
    exists j :: a <= j < k && Schedules(ms[j], es[j]) && ms[j + 1].s.current == i
  }

  /** What a step does before it calls `schedule`. */
  ghost function BeforeSchedule(m: Machine, e: Event): State {
    if e.LockPass? then Waiting(m.s)
    else if e.SleepCall? then PutToSleep(m.s, m.s.current, e.milliseconds)
    else Wakeup(m.s.(time := (m.s.time + JIFFY) % TIME_LIMIT))
  }

  lemma AfterSchedule(m: Machine, e: Event)
    ensures if Schedules(m, e) then After(m, e).s == Schedule(BeforeSchedule(m, e)) && BeforeSchedule(m, e).prevId == m.s.prevId
            else After(m, e).s.prevId == m.s.prevId
  {
    hide Wakeup, Scheduling.PutToSleep, WithStatus, Readied, Scan;
    match e
    case SleepCall(milliseconds) => PutToSleepPrev(m.s, m.s.current, milliseconds);
    case ClockInterrupt => WakeupPrev(m.s.(time := (m.s.time + JIFFY) % TIME_LIMIT));
    case _ =>
  }

  lemma PutToSleepPrev(s: State, i: Id, milliseconds: nat)
    ensures PutToSleep(s, i, milliseconds).prevId == s.prevId
  {
  }

  lemma WakeupPrev(s: State)
    ensures Wakeup(s).prevId == s.prevId
  {
  }

  lemma ScheduleStep(m: Machine, e: Event, i: Id)
    requires Ready(After(m, e).s.table, i)
    ensures var s' := After(m, e).s;
      if Schedules(m, e) then s'.current == i || Distance(s'.prevId, i) < Distance(m.s.prevId, i)
      else s'.prevId == m.s.prevId
  {
    hide After, BeforeSchedule, Scan;
    AfterSchedule(m, e);
    if Schedules(m, e) {
      var s := BeforeSchedule(m, e);
      ScheduleChooses(s);
      if Schedule(s).prevId != i {
        Nearer(s.prevId, Schedule(s).prevId, i);
      }
    }
  }

  lemma {:induction false} ComesNearer(ms: seq<Machine>, es: seq<Event>, i: Id, a: nat, k: nat)
    requires Run(ms, es) && a <= k <= |es| && StaysReady(ms, i, a, k)
    ensures Chosen(ms, es, i, a, k) ||
            Distance(ms[k].s.prevId, i) + ScheduleCalls(ms, es, k) <= Distance(ms[a].s.prevId, i) + ScheduleCalls(ms, es, a)
  {
    if k > a {
      ComesNearer(ms, es, i, a, k - 1);
      assert ms[k] == After(ms[k - 1], es[k - 1]) && Ready(ms[k].s.table, i);
      hide After, Run, StaysReady, Enabled, Distance;
      ScheduleStep(ms[k - 1], es[k - 1], i);
    }
  }

  /** Any task that is READY throughout a round of calls of `schedule`, wherever in a run, gets the processor in it. */
  lemma RoundRobin(ms: seq<Machine>, es: seq<Event>, i: Id, a: nat, k: nat)
    requires Run(ms, es) && a <= k <= |es| && StaysReady(ms, i, a, k)
    requires ScheduleCalls(ms, es, k) - ScheduleCalls(ms, es, a) >= 256
    ensures Chosen(ms, es, i, a, k)
  {
    ComesNearer(ms, es, i, a, k);
  }

  // ----- Blocking is careful by itself -----

  /** Task 0 does not sleep, and nobody sleeps with the mutex in hand. */
  ghost predicate Disciplined(m: Machine, e: Event) {
    e.SleepCall? ==> m.s.current != 0 && m.phase[m.s.current] == Outside
  }

  /** Who holds the mutex can go on, and task 0 is READY or waits for the mutex. */
  ghost predicate Steady(m: Machine) {
    && (forall i: Id :: m.phase[i] == Holding ==> Ready(m.s.table, i))
    && (Ready(m.s.table, 0) || 0 in m.s.waiters)
  }

  lemma SteadyCareful(m: Machine, e: Event)
    requires Invariant(m) && Steady(m) && Allowed(m, e) && Disciplined(m, e) && !e.Create?
    ensures Careful(m, e)
  {
    if m.s.occupied {
      var holder: Id :| m.phase[holder] == Holding;
      assert Ready(m.s.table, holder);
    }
  }

  lemma SteadyStays(m: Machine, e: Event)
    requires Invariant(m) && Steady(m) && Enabled(m, e) && Disciplined(m, e)
    ensures Steady(After(m, e))
  {
    hide Queued, Sorted, OtherReady, Scan, Wakeup;
    match e
    case LockPass =>
    case UnlockCall => UnlockKeeps(m);
    case SleepCall(_) =>
    case ClockInterrupt => TickReadies(m);
    case Create(_, _, _) =>
  }

  lemma TickReadies(m: Machine)
    requires Invariant(m)
    ensures var s' := Tick(m.s); s'.waiters == m.s.waiters && forall j: Id :: Ready(m.s.table, j) ==> Ready(s'.table, j)
  {
    WakeupKeepsQueues(m.s.(time := (m.s.time + JIFFY) % TIME_LIMIT));
  }

  /** A run in which whoever blocks need not look whether another task is READY. */
  ghost predicate DisciplinedRun(ms: seq<Machine>, es: seq<Event>) {
    && |ms| == |es| + 1 && Initial(ms[0])
    && forall k :: 0 <= k < |es| ==>
         && Allowed(ms[k], es[k]) && Disciplined(ms[k], es[k]) && (es[k].Create? ==> Careful(ms[k], es[k]))
         && ms[k + 1] == After(ms[k], es[k])
  }

  /** With this discipline there is always another READY task when one blocks, task 0 included. */
  lemma {:induction false} NeverAlone(ms: seq<Machine>, es: seq<Event>, k: nat)
    requires DisciplinedRun(ms, es) && k < |ms|
    ensures Invariant(ms[k]) && Steady(ms[k])
    ensures k < |es| ==> Careful(ms[k], es[k])
  {
    if k == 0 {
      InitiallyInvariant(ms[0]);
    } else {
      NeverAlone(ms, es, k - 1);
      StepKeeps(ms[k - 1], es[k - 1]);
      SteadyStays(ms[k - 1], es[k - 1]);
    }
    if k < |es| && !es[k].Create? {
      SteadyCareful(ms[k], es[k]);
    }
  }

  lemma DisciplineSuffices(ms: seq<Machine>, es: seq<Event>)
    requires DisciplinedRun(ms, es)
    ensures Run(ms, es)
  {
    forall k | 0 <= k < |es|
      ensures Enabled(ms[k], es[k]) && ms[k + 1] == After(ms[k], es[k])
    {
      NeverAlone(ms, es, k);
    }
  }

  /** Without it a task can end up alone: task 0 locks and goes to sleep, and task 1 asks for the mutex. */
  lemma AloneReached(m: Machine) returns (ms: seq<Machine>, es: seq<Event>)
    requires Initial(m)
    ensures Run(ms, es) && ms[0] == m
    ensures var last := ms[|es|]; Allowed(last, LockPass) && last.s.waiters == [] && Lock(Lock(last.s)).waiters == [1, 1]
  {
    hide After, Allowed, Careful, Schedule, Initial;
    es := [Create(1, READY, 0), LockPass, SleepCall(100)];
    ms := [m, After(m, es[0]), After(After(m, es[0]), es[1]), After(After(After(m, es[0]), es[1]), es[2])];
    ThreeSteps(m, ms[1], ms[2], ms[3]);
  }

  lemma ThreeSteps(m: Machine, m1: Machine, m2: Machine, m3: Machine)
    requires Initial(m) && m1 == After(m, Create(1, READY, 0)) && m2 == After(m1, LockPass) && m3 == After(m2, SleepCall(100))
    ensures Enabled(m, Create(1, READY, 0)) && Enabled(m1, LockPass) && Enabled(m2, SleepCall(100))
    ensures Allowed(m3, LockPass) && m3.s.waiters == [] && Lock(Lock(m3.s)).waiters == [1, 1]
  {
    assert Ready(m2.s.table, 1) && OtherReady(m2.s);
    hide Scheduling.Sleep, Lock, Wakeup, Unlock;
    OneIsLeft(m2.s);
    AloneQueuesTwice(m3.s);
  }

  lemma OneIsLeft(s: State)
    requires s.current == 0 && s.prevId == 0 && Ready(s.table, 1) && forall j: Id :: j > 1 ==> s.table[j].Empty?
    ensures var s' := Scheduling.Sleep(s, 100);
      && s'.current == s'.prevId == 1 && Ready(s'.table, 1) && !OtherReady(s')
      && s' == s.(table := s'.table, sleepers := s'.sleepers, prevId := 1, current := 1)
  {
    var asleep := PutToSleep(s, 0, 100);
    assert Ready(asleep.table, 1);
    assert forall j: Id :: j != 1 ==> !Ready(asleep.table, j);
    ScheduleChooses(asleep);
  }

  // ----- Sleep over runs -----

  /** A clock interrupt makes exactly the sleepers READY that are due; who waits for the mutex goes on waiting. */
  lemma TickWakesDue(ms: seq<Machine>, es: seq<Event>, k: nat, i: Id)
    requires Run(ms, es) && k < |es| && es[k] == ClockInterrupt && Blocked(ms[k].s.table, i)
    ensures var s, s' := ms[k].s, ms[k + 1].s;
      if i in s.sleepers && s.table[i].wakeupMoment <= s'.time then Ready(s'.table, i)
      else s'.table[i] == s.table[i] && (i in s'.sleepers <==> i in s.sleepers)
  {
    Always(ms, es, k);
    TickOn(ms[k].s, i);
  }

  lemma TickOn(s: State, i: Id)
    requires Queued(s) && Sorted(s.table, s.sleepers) && Blocked(s.table, i)
    ensures var s' := Tick(s);
      && s'.time == (s.time + JIFFY) % TIME_LIMIT
      && if i in s.sleepers && s.table[i].wakeupMoment <= s'.time then Ready(s'.table, i)
         else s'.table[i] == s.table[i] && (i in s'.sleepers <==> i in s.sleepers)
  {
    var t := s.(time := (s.time + JIFFY) % TIME_LIMIT);
    if i in s.sleepers {
      WakeupExact(t, i);
    } else {
      SplitQueue(t.sleepers, Due(t.table, t.sleepers, t.time));
      ReadiedAt(t.table, t.sleepers[..Due(t.table, t.sleepers, t.time)], i);
    }
  }

  /** How many of the steps from `a` to `k` are clock interrupts. */
  ghost function Ticks(es: seq<Event>, a: nat, k: nat): nat
    requires a <= k <= |es|
  {
    if k == a then 0 else Ticks(es, a, k - 1) + if es[k - 1].ClockInterrupt? then 1 else 0
  }

  /** Where a sleeper is that nobody has woken yet. */
  ghost predicate Asleep(s: State, i: Id, moment: int) {
    i in s.sleepers && Blocked(s.table, i) && s.table[i].wakeupMoment == moment
  }

  lemma StepOfSleeper(m: Machine, e: Event, i: Id, moment: int)
    requires Invariant(m) && Enabled(m, e) && Asleep(m.s, i, moment)
    ensures var s' := After(m, e).s;
      if e.ClockInterrupt? then
        && s'.time == (m.s.time + JIFFY) % TIME_LIMIT
        && if moment <= s'.time then Ready(s'.table, i) else Asleep(s', i, moment)
      else s'.time == m.s.time && Asleep(s', i, moment)
  {
    if e.ClockInterrupt? {
      TickOn(m.s, i);
    } else if e.SleepCall? {
      PutToSleepKeepsSorted(m.s, m.s.current, e.milliseconds);
    }
  }

  /** Between steps `a` and `k` task `i` has become READY at the first clock interrupt that makes `n` milliseconds full. */
  ghost predicate WokenInTime(ms: seq<Machine>, es: seq<Event>, i: Id, n: nat, a: nat, k: nat)
    requires a < k <= |es| < |ms|
  {
    exists j :: a < j <= k && Ready(ms[j].s.table, i) && n <= Ticks(es, a + 1, j) * JIFFY < n + JIFFY
  }

  lemma FallsAsleep(m: Machine, n: nat)
    requires Invariant(m) && 0 < n && 0 <= m.s.time && m.s.time + n < TIME_LIMIT
    ensures var s' := After(m, SleepCall(n)).s; Asleep(s', m.s.current, m.s.time + n) && s'.time == m.s.time
  {
    PutToSleepKeepsSorted(m.s, m.s.current, n);
  }

  /** The first step of the run that matters to a sleeper has been made, and its moment lies in the range of the clock. */
  ghost predicate SleepBegins(ms: seq<Machine>, es: seq<Event>, a: nat, k: nat, i: Id, n: nat) {
    && Run(ms, es) && a < k <= |es| && ms[a].s.current == i && es[a] == SleepCall(n)
    && n > 0 && 0 <= ms[a].s.time && ms[a].s.time + n + JIFFY < TIME_LIMIT
  }

  lemma SleeperStep(ms: seq<Machine>, es: seq<Event>, a: nat, k: nat, i: Id, n: nat)
    requires SleepBegins(ms, es, a, k, i, n)
    ensures |ms| == |es| + 1 && Invariant(ms[k - 1]) && Enabled(ms[k - 1], es[k - 1]) && ms[k] == After(ms[k - 1], es[k - 1])
    ensures k > a + 1 ==> SleepBegins(ms, es, a, k - 1, i, n)
  {
    Always(ms, es, k - 1);
  }

  /** Whatever happens meanwhile, it stays blocked until as many clock interrupts have come as its time takes. */
  lemma {:induction false} StaysAsleep(ms: seq<Machine>, es: seq<Event>, a: nat, k: nat, i: Id, n: nat)
    requires SleepBegins(ms, es, a, k, i, n) && Ticks(es, a + 1, k) * JIFFY < n
    ensures |ms| == |es| + 1 && Asleep(ms[k].s, i, ms[a].s.time + n) && ms[k].s.time == ms[a].s.time + Ticks(es, a + 1, k) * JIFFY
  {
    hide Run, Invariant, After, Enabled, Asleep;
    SleeperStep(ms, es, a, k, i, n);
    var m, e := ms[k - 1], es[k - 1];
    if k == a + 1 {
      FallsAsleep(m, n);
    } else {
      StaysAsleep(ms, es, a, k - 1, i, n);
      StepOfSleeper(m, e, i, ms[a].s.time + n);
    }
  }

  lemma WakesNow(ms: seq<Machine>, es: seq<Event>, a: nat, k: nat, i: Id, n: nat)
    requires SleepBegins(ms, es, a, k, i, n) && a + 1 < k && Ticks(es, a + 1, k - 1) * JIFFY < n <= Ticks(es, a + 1, k) * JIFFY
    ensures |ms| == |es| + 1 && WokenInTime(ms, es, i, n, a, k)
  {
    hide Run, Invariant, After, Enabled, Asleep;
    SleeperStep(ms, es, a, k, i, n);
    StaysAsleep(ms, es, a, k - 1, i, n);
    StepOfSleeper(ms[k - 1], es[k - 1], i, ms[a].s.time + n);
    assert Ready(ms[k].s.table, i);
  }

  /** And not one longer. */
  lemma {:induction false} SleepsItsTime(ms: seq<Machine>, es: seq<Event>, a: nat, k: nat, i: Id, n: nat)
    requires SleepBegins(ms, es, a, k, i, n)
    ensures |ms| == |es| + 1
    ensures if Ticks(es, a + 1, k) * JIFFY < n then Blocked(ms[k].s.table, i) else WokenInTime(ms, es, i, n, a, k)
  {
    hide Run, Invariant, After, Enabled, Ready;
    SleeperStep(ms, es, a, k, i, n);
    if Ticks(es, a + 1, k) * JIFFY < n {
      StaysAsleep(ms, es, a, k, i, n);
    } else {
      assert k > a + 1;
      if Ticks(es, a + 1, k - 1) * JIFFY < n {
        WakesNow(ms, es, a, k, i, n);
      } else {
        SleepsItsTime(ms, es, a, k - 1, i, n);
      }
    }
  }
}
