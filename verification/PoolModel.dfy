/**
 * The thread pool of thread_pool.c as a machine: every critical section is one step.
 *
 * An entry is one push of a task. `list` is the pool's task list from pool->task to
 * pool->last_task; `pushes` holds each task's own list of pushes, newest first.
 */
module PoolModel {
  import opened Wrappers

  const TPOOL_MAX_THREADS := 20
  const TPOOL_MAX_TASKS := 100000

  datatype Phase = Pending | Running(worker: nat) | Finished(result: int)

  /** The joiner of an entry: none, blocked on its end_cond, or not yet back after the signal. */
  datatype Waiter = Nobody | Blocked(timed: bool) | Woken(timed: bool)

  datatype Entry = Entry(id: nat, task: nat, phase: Phase, start: nat, joined: bool, detached: bool, waiter: Waiter)

  /** A worker between critical sections: about to lock, waiting on work_cond, running an entry, or gone. */
  datatype Worker = Ready | Waiting | Working(entry: nat) | Exited

  /** The thread inside thread_pool_delete, once its task check has passed. */
  datatype Deleter = Absent | Sleeping | Signalled | Returned

  /** nextId numbers the pushes; executed and finished record which entries started and returned. */
  datatype Pool = Pool(
    list: seq<Entry>, pushes: map<nat, seq<nat>>, workers: seq<Worker>,
    maxThreads: nat, threadsCnt: int, activeCnt: int, tasksCnt: int,
    isActive: bool, deleter: Deleter,
    nextId: nat, executed: seq<nat>, finished: set<nat>)

  datatype Timeout = Forever | Positive | NonPositive

  datatype Action =
    | NewTask(t: nat)
    | Push(t: nat)
    | Join(t: nat, timeout: Timeout)
    | JoinReturn(id: nat)
    | JoinTimeOut(id: nat)
    | Detach(t: nat)
    | Delete(t: nat)
    | PoolDelete
    | PoolDeleteWake
    | Take(w: nat)
    | Sleep(w: nat)
    | Quit(w: nat)
    | Finish(w: nat, r: int)

  datatype Error = InvalidArgument | TooManyTasks | HasTasks | TaskNotPushed | TaskInPool | TimedOut
  datatype Reply = Ok | Value(r: int) | Blocks | Fails(error: Error)

  function NewPool(maxThreads: int): Option<Pool> {
    if maxThreads > TPOOL_MAX_THREADS || maxThreads <= 0 then None
    else Some(Pool([], map[], [], maxThreads, 0, 0, 0, true, Absent, 0, [], {}))
  }

  // ---------------------------------------------------------------- list functions

  /** get_task: the first entry neither running nor finished, or the length of the list. */
  function FirstPending(list: seq<Entry>): (k: nat)
    ensures k <= |list| && (k < |list| ==> list[k].phase.Pending?)
    ensures forall j | 0 <= j < k :: !list[j].phase.Pending?
  {
    if list == [] || list[0].phase.Pending? then 0 else
      var k := 1 + FirstPending(list[1..]);
      assert forall j | 1 <= j < k :: list[j] == list[1..][j - 1];
      k
  }

  /** The position of an entry. */
  function Find(list: seq<Entry>, id: nat): (k: nat)
    ensures k <= |list| && (k < |list| ==> list[k].id == id)
    ensures forall j | 0 <= j < k :: list[j].id != id
  {
    if list == [] || list[0].id == id then 0 else
      var k := 1 + Find(list[1..], id);
      assert forall j | 1 <= j < k :: list[j] == list[1..][j - 1];
      k
  }

  /** Move entry k to the end of the list. */
  function MoveToEnd(list: seq<Entry>, k: nat, e: Entry): seq<Entry>
    requires k < |list|
  {
    list[..k] + list[k + 1..] + [e]
  }

  /** The list without the entries of task t. */
  function RemoveTask(list: seq<Entry>, t: nat): (r: seq<Entry>)
    ensures forall e | e in r :: e in list && e.task != t
    ensures forall e | e in list && e.task != t :: e in r
    ensures |r| <= |list|
  {
    if list == [] then [] else
      var rest := RemoveTask(list[1..], t);
      assert list == [list[0]] + list[1..];
      if list[0].task == t then rest else [list[0]] + rest
  }

  /** What delete_task asks of an entry before it frees it. */
  predicate Loose(e: Entry) { e.joined || (e.detached && e.phase.Finished?) }

  predicate Deletable(list: seq<Entry>, t: nat) {
    forall e | e in list && e.task == t :: Loose(e)
  }

  function Broadcast(ws: seq<Worker>): (r: seq<Worker>)
    ensures |r| == |ws|
    ensures forall i | 0 <= i < |ws| :: r[i] == if ws[i].Waiting? then Ready else ws[i]
  {
    seq(|ws|, i requires 0 <= i < |ws| => if ws[i].Waiting? then Ready else ws[i])
  }

  // ---------------------------------------------------------------- steps

  predicate Pushed(s: Pool, t: nat) { t in s.pushes && s.pushes[t] != [] }

  /** The position of the latest push of t. */
  function Latest(s: Pool, t: nat): nat
    requires Pushed(s, t)
  {
    Find(s.list, s.pushes[t][0])
  }

  /** The steps the threads themselves can take. */
  predicate Enabled(s: Pool, a: Action) {
    match a
    case NewTask(t) => t !in s.pushes
    case Push(t) => t in s.pushes
    case Join(t, _) => t in s.pushes && (Pushed(s, t) ==> Latest(s, t) < |s.list|)
    case JoinReturn(id) =>
      var k := Find(s.list, id);
      k < |s.list| && s.list[k].waiter.Woken? && s.list[k].phase.Finished?
    case JoinTimeOut(id) =>
      // The time may also run out while the signal is on its way.
      var k := Find(s.list, id);
      k < |s.list| && !s.list[k].waiter.Nobody? && s.list[k].waiter.timed
    case Detach(t) => t in s.pushes && (Pushed(s, t) ==> Latest(s, t) < |s.list|)
    case Delete(t) => t in s.pushes
    case PoolDelete => s.deleter.Absent?
    case PoolDeleteWake => s.deleter.Signalled?
    case Take(w) => w < |s.workers| && s.workers[w].Ready? && s.isActive && FirstPending(s.list) < |s.list|
    case Sleep(w) => w < |s.workers| && s.workers[w].Ready? && s.isActive && FirstPending(s.list) == |s.list|
    case Quit(w) => w < |s.workers| && s.workers[w].Ready? && !s.isActive
    case Finish(w, _) => w < |s.workers| && s.workers[w].Working? && Find(s.list, s.workers[w].entry) < |s.list|
  }

  /** delete_task on a task that was pushed: all its entries, or none. */
  function DeleteTask(s: Pool, t: nat): (Pool, Reply)
    requires t in s.pushes
  {
    if Deletable(s.list, t) then
      (s.(list := RemoveTask(s.list, t), pushes := s.pushes - {t}, tasksCnt := s.tasksCnt - |s.pushes[t]|), Ok)
    else (s, Fails(TaskInPool))
  }

  function DoPush(s: Pool, t: nat): (Pool, Reply)
    requires t in s.pushes
  {
    if s.tasksCnt == TPOOL_MAX_TASKS then (s, Fails(TooManyTasks)) else
    var create := s.activeCnt == s.threadsCnt && s.threadsCnt < s.maxThreads;
    var workers := if create then s.workers + [Ready] else s.workers;
    (s.(workers := Broadcast(workers),
        threadsCnt := if create then s.threadsCnt + 1 else s.threadsCnt,
        list := [Entry(s.nextId, t, Pending, 0, false, false, Nobody)] + s.list,
        pushes := s.pushes[t := [s.nextId] + s.pushes[t]],
        tasksCnt := s.tasksCnt + 1,
        nextId := s.nextId + 1),
     Ok)
  }

  function DoJoin(s: Pool, t: nat, timeout: Timeout): (Pool, Reply)
    requires Enabled(s, Join(t, timeout))
  {
    if s.pushes[t] == [] then (s, Fails(TaskNotPushed)) else
    if timeout.NonPositive? then (s, Fails(TimedOut)) else
    var k := Latest(s, t);
    var e := s.list[k].(joined := true);
    if e.phase.Finished? then (s.(list := s.list[k := e]), Value(e.phase.result))
    else (s.(list := s.list[k := e.(waiter := Blocked(timeout.Positive?))]), Blocks)
  }

  function DoDetach(s: Pool, t: nat): (Pool, Reply)
    requires Enabled(s, Detach(t))
  {
    if s.pushes[t] == [] then (s, Fails(TaskNotPushed)) else
    var k := Latest(s, t);
    var s1 := s.(list := s.list[k := s.list[k].(detached := true)]);
    if s.list[k].phase.Finished? then (DeleteTask(s1, t).0, Ok) else (s1, Ok)
  }

  function DoFinish(s: Pool, w: nat, r: int): (Pool, Reply)
    requires Enabled(s, Finish(w, r))
  {
    var k := Find(s.list, s.workers[w].entry);
    var e := s.list[k].(phase := Finished(r), waiter := Wake(s.list[k].waiter));
    var s1 := s.(list := s.list[k := e], workers := s.workers[w := Ready], activeCnt := s.activeCnt - 1,
                 finished := s.finished + {e.id});
    if e.detached && e.task in s.pushes then (DeleteTask(s1, e.task).0, Ok) else (s1, Ok)
  }

  /** pthread_cond_signal on end_cond. */
  function Wake(w: Waiter): Waiter { if w.Blocked? then Woken(w.timed) else w }

  function Apply(s: Pool, a: Action): (Pool, Reply)
    requires Enabled(s, a)
  {
    match a
    case NewTask(t) => (s.(pushes := s.pushes[t := []]), Ok)
    case Push(t) => DoPush(s, t)
    case Join(t, timeout) => DoJoin(s, t, timeout)
    case JoinReturn(id) =>
      var k := Find(s.list, id);
      (s.(list := s.list[k := s.list[k].(waiter := Nobody)]), Value(s.list[k].phase.result))
    case JoinTimeOut(id) =>
      var k := Find(s.list, id);
      (s.(list := s.list[k := s.list[k].(waiter := Nobody)]), Fails(TimedOut))
    case Detach(t) => DoDetach(s, t)
    case Delete(t) => if s.pushes[t] == [] then (s.(pushes := s.pushes - {t}), Ok) else DeleteTask(s, t)
    case PoolDelete =>
      if s.tasksCnt > 0 then (s, Fails(HasTasks)) else
      (s.(isActive := false, workers := Broadcast(s.workers),
          deleter := if s.threadsCnt == 0 then Returned else Sleeping), Ok)
    case PoolDeleteWake => (s.(deleter := if s.threadsCnt == 0 then Returned else Sleeping), Ok)
    case Take(w) =>
      var k := FirstPending(s.list);
      var e := s.list[k].(phase := Running(w), start := |s.executed|);
      (s.(list := MoveToEnd(s.list, k, e), workers := s.workers[w := Working(e.id)],
          activeCnt := s.activeCnt + 1, executed := s.executed + [e.id]), Ok)
    case Sleep(w) => (s.(workers := s.workers[w := Waiting]), Ok)
    case Quit(w) =>
      (s.(workers := s.workers[w := Exited], threadsCnt := s.threadsCnt - 1,
          deleter := if s.deleter.Sleeping? then Signalled else s.deleter), Ok)
    case Finish(w, r) => DoFinish(s, w, r)
  }

  // ---------------------------------------------------------------- losing work

  /** The steps that may call delete_task. */
  predicate Frees(a: Action) { a.Delete? || a.Detach? || a.Finish? }

  /** The step frees a push that has not run to its end, or one that a joiner still waits for. */
  ghost predicate Drops(s: Pool, a: Action)
    requires Enabled(s, a)
  {
    var t := Apply(s, a).0;
    && Frees(a)
    && exists e :: e in s.list && Find(t.list, e.id) == |t.list| && (e.id !in t.finished || !e.waiter.Nobody?)
  }

  // ---------------------------------------------------------------- client discipline

  /** No join of t is in progress. */
  predicate Unwaited(list: seq<Entry>, t: nat) {
    forall e | e in list && e.task == t :: e.waiter.Nobody?
  }

  predicate Attached(list: seq<Entry>, t: nat) {
    forall e | e in list && e.task == t :: !e.detached
  }

  /**
   * What the client has to respect: a task is not touched after detach, nor detached during a join; it has one joiner
   * at a time; and nothing is pushed once the pool is being deleted.
   */
  predicate Disciplined(s: Pool, a: Action) {
    match a
    case Push(t) => s.isActive && Attached(s.list, t)
    case Join(t, _) =>
      Attached(s.list, t) && (Pushed(s, t) && Latest(s, t) < |s.list| ==> s.list[Latest(s, t)].waiter.Nobody?)
    case Detach(t) => Attached(s.list, t) && Unwaited(s.list, t)
    case Delete(t) => Attached(s.list, t)
    case _ => true
  }
}
