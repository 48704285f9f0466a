/**
 * The structures of thread_pool.c: the doubly linked list of pushes that the pool keeps, and the singly
 * linked list of its own pushes that each task keeps.
 *
 * Every critical section is proved to do to `view` what PoolModel.Apply does, and to leave the linked
 * structures showing exactly that view.
 */
module PoolHeap {
  import opened PoolModel
  import opened PoolInvariant
  import opened PoolRuns

  /** struct thread_pool_task. endCond is its condition variable: who waits on it. */
  class TpTask {
    const threadTask: ThreadTask
    var endCond: Waiter
    var result: int
    var isFinished: bool
    var isRunning: bool
    var isPushed: bool
    var isJoined: bool
    var isDetached: bool
    var next: TpTask?
    var prev: TpTask?
    /** Stands for the address: pushes are numbered. */
    const id: nat
    /** Set when the node is given back with free(). */
    ghost var freed: bool

    constructor (threadTask: ThreadTask, id: nat)
      ensures this.threadTask == threadTask && this.id == id && next == null && prev == null && !freed
      ensures !isFinished && !isRunning && !isPushed && !isJoined && !isDetached && endCond == Nobody
    {
      this.threadTask, this.id := threadTask, id;
      isFinished, isRunning, isPushed, isJoined, isDetached := false, false, false, false, false;
      endCond, result, next, prev := Nobody, 0, null, null;
      freed := false;
    }
  }

  /** struct tp_task_list. */
  class TpTaskList {
    const tpTask: TpTask
    const next: TpTaskList?

    constructor (tpTask: TpTask, next: TpTaskList?)
      ensures this.tpTask == tpTask && this.next == next
    {
      this.tpTask, this.next := tpTask, next;
    }
  }

  /** struct thread_task. */
  class ThreadTask {
    var list: TpTaskList?
    ghost var cells: seq<TpTaskList>
    /** The task's name in the model. */
    ghost const name: nat

    constructor (ghost name: nat)
      ensures list == null && cells == [] && this.name == name
    {
      list, cells, this.name := null, [], name;
    }

    /** get_tp_task: the latest push. */
    method GetTpTask() returns (t: TpTask?)
      ensures t == if list == null then null else list.tpTask
    {
      return if list == null then null else list.tpTask;
    }
  }

  class ThreadPool {
    const maxThreadsCnt: int
    var threadsCnt: int
    var activeThreadsCnt: int
    var isActive: bool
    var task: TpTask?
    var lastTask: TpTask?
    var tasksCnt: int
    /** Where each thread stands, and who waits on work_cond and thread_finish_cond. */
    var workers: seq<Worker>
    var deleter: Deleter
    /** The next address malloc hands out. */
    var nextId: nat

    /** Every node ever created, by number; the listed ones; the live tasks; the state shown. */
    ghost var arena: seq<TpTask>
    ghost var nodes: seq<TpTask>
    ghost var tasks: map<nat, ThreadTask>
    ghost var view: Pool

    static ghost predicate ShowsNode(n: TpTask, e: Entry)
      reads n`isFinished, n`isRunning, n`isPushed, n`isJoined, n`isDetached, n`result, n`endCond, n`freed
    {
      && n.isPushed && !n.freed && n.isJoined == e.joined && n.isDetached == e.detached && n.endCond == e.waiter
      && n.isRunning == e.phase.Running? && n.isFinished == e.phase.Finished?
      && (e.phase.Finished? ==> n.result == e.phase.result)
    }

    /** The listed nodes carry the entries of the list. */
    static ghost predicate ShowsList(ar: seq<TpTask>, ns: seq<TpTask>, list: seq<Entry>)
      reads ns`isFinished, ns`isRunning, ns`isPushed, ns`isJoined, ns`isDetached, ns`result, ns`endCond, ns`freed
    {
      && Placed(ar, ns, list)
      && forall i | 0 <= i < |list| :: ShowsNode(ns[i], list[i])
    }

    static ghost predicate Placed(ar: seq<TpTask>, ns: seq<TpTask>, list: seq<Entry>) {
      && |ns| == |list|
      && (forall i | 0 <= i < |ar| :: ar[i].id == i)
      && forall i | 0 <= i < |list| :: list[i].id < |ar| && ns[i] == ar[list[i].id]
    }

    /** next, prev and the two ends agree with the order of ns. */
    ghost predicate Links(ns: seq<TpTask>)
      reads `task, `lastTask, ns`next, ns`prev
    {
      && (forall i {:trigger ns[i].next} | 0 <= i < |ns| - 1 :: ns[i].next == ns[i + 1])
      && (forall i {:trigger ns[i].prev} | 1 <= i < |ns| :: ns[i].prev == ns[i - 1])
      && (if ns == [] then task == null && lastTask == null
          else
            && task == ns[0] && ns[0].prev == null
            && lastTask == ns[|ns| - 1] && ns[|ns| - 1].next == null)
    }

    /** The cells of a task run through its pushes, newest first. */
    static ghost predicate ShowsCells(ar: seq<TpTask>, t: ThreadTask, ids: seq<nat>)
      reads t`list, t`cells
    {
      CellRun(ar, t.list, t.cells, ids)
    }

    static ghost predicate CellRun(ar: seq<TpTask>, first: TpTaskList?, cells: seq<TpTaskList>, ids: seq<nat>) {
      && |cells| == |ids|
      && first == (if ids == [] then null else cells[0])
      && (forall i {:trigger cells[i].next} | 0 <= i < |ids| ::
            cells[i].next == (if i + 1 < |ids| then cells[i + 1] else null))
      && forall i | 0 <= i < |ids| :: ids[i] < |ar| && cells[i].tpTask == ar[ids[i]]
    }

    static lemma CellBefore(ar: seq<TpTask>, c: TpTaskList, first: TpTaskList?, cells: seq<TpTaskList>, ids: seq<nat>)
      requires CellRun(ar, first, cells, ids) && c.next == first
      ensures CellRun(ar + [c.tpTask], c, [c] + cells, [|ar|] + ids)
    {
      var cs := [c] + cells;
      assert forall i | 0 < i < |cs| :: cs[i] == cells[i - 1];
    }

    static lemma MoreArena(ar: seq<TpTask>, n: TpTask, first: TpTaskList?, cells: seq<TpTaskList>, ids: seq<nat>)
      requires CellRun(ar, first, cells, ids)
      ensures CellRun(ar + [n], first, cells, ids)
    {
    }

    static ghost predicate ShowsTasks(ar: seq<TpTask>, ts: map<nat, ThreadTask>, pushes: map<nat, seq<nat>>)
      reads ts.Values`list, ts.Values`cells
    {
      && ts.Keys == pushes.Keys
      && (forall t | t in ts :: ts[t] in ts.Values && ts[t].name == t && ShowsCells(ar, ts[t], pushes[t]))
    }

    /** Every listed node belongs to a live task. */
    static ghost predicate Owners(ns: seq<TpTask>, ts: map<nat, ThreadTask>, list: seq<Entry>) {
      |ns| == |list| && forall i | 0 <= i < |list| :: list[i].task in ts && ns[i].threadTask == ts[list[i].task]
    }

    ghost predicate ShowsCounters(s: Pool)
      reads `threadsCnt, `activeThreadsCnt, `isActive, `tasksCnt, `workers, `deleter, `nextId, `arena
    {
      && maxThreadsCnt == s.maxThreads && threadsCnt == s.threadsCnt && activeThreadsCnt == s.activeCnt
      && isActive == s.isActive && tasksCnt == s.tasksCnt && workers == s.workers && deleter == s.deleter
      && nextId == s.nextId == |arena|
    }

    /** The structures show state s. */
    ghost predicate Shows(s: Pool)
      reads `threadsCnt, `activeThreadsCnt, `isActive, `task, `lastTask, `tasksCnt, `workers, `deleter, `nextId
      reads `arena, `nodes, `tasks, nodes, tasks.Values
    {
      && ShowsList(arena, nodes, s.list) && Links(nodes)
      && ShowsTasks(arena, tasks, s.pushes) && Owners(nodes, tasks, s.list)
      && ShowsCounters(s)
    }

    ghost predicate Valid()
      reads this, nodes, tasks.Values
    {
      Inv(view) && Shows(view)
    }

    /** thread_pool_new, once max_thread_count has passed its check. */
    constructor (maxThreadCount: int)
      requires NewPool(maxThreadCount).Some?
      ensures Valid() && view == NewPool(maxThreadCount).value && nodes == [] && tasks == map[]
    {
      maxThreadsCnt, threadsCnt, tasksCnt, isActive, activeThreadsCnt := maxThreadCount, 0, 0, true, 0;
      task, lastTask := null, null;
      workers, deleter, nextId := [], Absent, 0;
      arena, nodes, tasks, view := [], [], map[], NewPool(maxThreadCount).value;
      new;
      NewPoolInv(maxThreadCount);
    }

    // -------------------------------------------------------------- facts about the structures

    /** Listed nodes are different nodes. */
    lemma DistinctNodes(s: Pool)
      requires ShowsList(arena, nodes, s.list) && Ordered(s.list)
      ensures forall i, j | 0 <= i < j < |nodes| :: nodes[i] != nodes[j]
    {
      forall i, j | 0 <= i < j < |nodes| ensures nodes[i] != nodes[j] {
        assert Before(s.list[i], s.list[j]);
        assert nodes[i].id == s.list[i].id && nodes[j].id == s.list[j].id;
      }
    }

    /** Nothing was added. */
    twostate predicate Shrinks()
      reads this
    {
      && (forall n | n in nodes :: n in old(nodes))
      && (forall t | t in tasks :: t in old(tasks) && tasks[t] == old(tasks)[t])
    }

    /** What a cursor on node number i sees. */
    ghost function At(i: nat): TpTask?
      reads `nodes
    {
      if i < |nodes| then nodes[i] else null
    }

    // -------------------------------------------------------------- the worker

    /** Lines 467-477: the first node that is neither running nor finished. */
    method GetTask(ghost list: seq<Entry>) returns (t: TpTask?)
      requires ShowsList(arena, nodes, list) && Links(nodes)
      ensures t == At(FirstPending(list))
    {
      t := task;
      ghost var i := 0;
      while t != null && (t.isRunning || t.isFinished)
        invariant i <= |nodes| && t == At(i)
        invariant forall j | 0 <= j < i :: !list[j].phase.Pending?
        decreases |nodes| - i
      {
        assert ShowsNode(nodes[i], list[i]);
        t := t.next;
        i := i + 1;
      }
      assert i < |nodes| ==> ShowsNode(nodes[i], list[i]);
    }

    /** Lines 290-310. The node is the head whenever it is not the tail, so the branch for the middle is dead. */
    method MoveLast(t: TpTask)
      requires Links(nodes) && nodes != [] && t == nodes[0]
      requires forall i, j | 0 <= i < j < |nodes| :: nodes[i] != nodes[j]
      modifies `task, `lastTask, `nodes, nodes`next, nodes`prev
      ensures Links(nodes) && nodes == old(nodes[1..] + [nodes[0]])
    {
      if t != lastTask {
        if task == t {
          var tpNext := t.next;
          assert tpNext == nodes[1];
          task := tpNext;
          tpNext.prev := null;
          t.prev := lastTask;
          lastTask.next := t;
          t.next := null;
          lastTask := t;
        } else {
          assert false;
        }
      }
      nodes := nodes[1..] + [nodes[0]];
    }

    method MarkRunning(t: TpTask, w: nat, ghost list: seq<Entry>, ghost start: nat)
      requires ShowsList(arena, nodes, list) && list != [] && t == nodes[0] && list[0].phase.Pending?
      requires forall i, j | 0 <= i < j < |nodes| :: nodes[i] != nodes[j]
      modifies t`isRunning
      ensures ShowsList(arena, nodes, list[0 := list[0].(phase := Running(w), start := start)])
    {
      t.isRunning := true;
    }

    /** Lines 288-310. */
    method TakeTask(t: TpTask, w: nat)
      requires Inv(view) && Enabled(view, Take(w)) && nodes != [] && t == nodes[0]
      requires ShowsList(arena, nodes, view.list) && Links(nodes) && Owners(nodes, tasks, view.list)
      modifies `task, `lastTask, `nodes, nodes`next, nodes`prev, t`isRunning
      ensures var list := Apply(view, Take(w)).0.list;
        && ShowsList(arena, nodes, list) && Links(nodes) && Owners(nodes, tasks, list)
        && (forall n | n in nodes :: n in old(nodes)) && t.id == view.list[0].id
    {
      hide Inv, ShowsNode, Links;
      TakesHead(view, w);
      DistinctNodes(view);
      ghost var list := view.list;
      ghost var start := |view.executed|;
      MarkRunning(t, w, list, start);
      ghost var marked := list[0 := list[0].(phase := Running(w), start := start)];
      MoveLast(t);
      Rotate(arena, old(nodes), marked, tasks);
      assert nodes == old(nodes)[1..] + [old(nodes)[0]];
      assert marked[1..] + [marked[0]] == list[1..] + [marked[0]];
    }

    static lemma Rotate(ar: seq<TpTask>, ns: seq<TpTask>, list: seq<Entry>, ts: map<nat, ThreadTask>)
      requires list != [] && ShowsList(ar, ns, list) && Owners(ns, ts, list)
      ensures ShowsList(ar, ns[1..] + [ns[0]], list[1..] + [list[0]])
      ensures Owners(ns[1..] + [ns[0]], ts, list[1..] + [list[0]])
    {
    }

    method Wait(w: nat)
      requires Enabled(view, Sleep(w)) && Shows(view)
      modifies `workers
      ensures Shows(Apply(view, Sleep(w)).0)
    {
      hide ShowsList, Links, ShowsTasks, Owners;
      workers := workers[w := Waiting];
    }

    /** Lines 326-329. */
    method Leave(w: nat)
      requires Enabled(view, Quit(w)) && Shows(Counted(view))
      modifies `threadsCnt, `activeThreadsCnt, `deleter, `workers
      ensures Shows(Apply(view, Quit(w)).0)
    {
      hide ShowsList, Links, ShowsTasks, Owners;
      threadsCnt := threadsCnt - 1;
      activeThreadsCnt := activeThreadsCnt - 1;
      deleter := if deleter.Sleeping? then Signalled else deleter;
      workers := workers[w := Exited];
    }

    method Run(w: nat, t: TpTask)
      requires Inv(view) && Enabled(view, Take(w)) && Shows(Counted(view)) && nodes != [] && t == nodes[0]
      modifies `task, `lastTask, `nodes, `workers, nodes`next, nodes`prev, t`isRunning
      ensures Shows(Apply(view, Take(w)).0) && forall n | n in nodes :: n in old(nodes)
    {
      hide Inv, ShowsList, Links, ShowsTasks, Owners;
      TakeTask(t, w);
      TakesHead(view, w);
      workers := workers[w := Working(t.id)];
      assert ShowsTasks(arena, tasks, view.pushes);
    }

    /** Line 285 counts the worker as active before it looks at is_active. */
    ghost function Counted(s: Pool): Pool { s.(activeCnt := s.activeCnt + 1) }

    method CountActive()
      requires Shows(view)
      modifies `activeThreadsCnt
      ensures Shows(Counted(view))
    {
      hide ShowsList, Links, ShowsTasks, Owners;
      activeThreadsCnt := activeThreadsCnt + 1;
    }

    /**
     * A worker takes the mutex: lines 276-311, and 326-329 when it leaves. A worker that wakes from
     * work_cond comes here again.
     */
    method Enter(w: nat)
      requires w < |view.workers| && view.workers[w].Ready? && Valid()
      modifies this, nodes
      ensures view == Entered(old(view), w)
      ensures Valid() && tasks == old(tasks) && forall n | n in nodes :: n in old(nodes)
    {
      hide Inv, Shows, Apply, Enabled, Disciplined;
      Enterable(view, w);
      ghost var a := Entering(view, w);
      ghost var next := Apply(view, a).0;
      StepInv(view, a);
      Sizes(view);
      var t := GetTask(view.list);
      if t == null && isActive {
        Wait(w);
      } else {
        CountActive();
        if !isActive {
          Leave(w);
        } else {
          Heads(view, w);
          Run(w, t);
        }
      }
      view := next;
    }

    lemma Sizes(s: Pool)
      requires Shows(s)
      ensures |nodes| == |s.list| && isActive == s.isActive
      ensures ShowsList(arena, nodes, s.list) && Links(nodes)
    {
    }

    lemma Heads(s: Pool, w: nat)
      requires Inv(s) && Enabled(s, Take(w)) && ShowsList(arena, nodes, s.list)
      ensures FirstPending(s.list) == 0 && nodes != [] && |nodes| == |s.list|
    {
      hide ShowsNode;
      TakesHead(s, w);
    }

    // -------------------------------------------------------------- delete_task

    /** Lines 408-430: take node number k out of the list. */
    method Unlink(tpTask: TpTask, ghost k: nat)
      requires Links(nodes) && k < |nodes| && tpTask == nodes[k]
      requires forall i, j | 0 <= i < j < |nodes| :: nodes[i] != nodes[j]
      modifies `task, `lastTask, `nodes, nodes`next, nodes`prev
      ensures Links(nodes) && nodes == old(nodes[..k] + nodes[k + 1..])
    {
      var tpPrev, tpNext := tpTask.prev, tpTask.next;
      assert tpPrev == (if k == 0 then null else nodes[k - 1]);
      assert tpNext == (if k + 1 == |nodes| then null else nodes[k + 1]);
      if lastTask == tpTask { lastTask := tpPrev; }
      if tpPrev == null {
        if tpNext != null { tpNext.prev := null; }
        task := tpNext;
      } else {
        if tpNext != null { tpNext.prev := tpPrev; }
        tpPrev.next := tpNext;
      }
      nodes := nodes[..k] + nodes[k + 1..];
    }

    static lemma Dropped(ar: seq<TpTask>, ns: seq<TpTask>, list: seq<Entry>, ts: map<nat, ThreadTask>, k: nat)
      requires k < |list| && ShowsList(ar, ns, list) && Owners(ns, ts, list)
      ensures ShowsList(ar, ns[..k] + ns[k + 1..], Without(list, k))
      ensures Owners(ns[..k] + ns[k + 1..], ts, Without(list, k))
    {
      hide ShowsNode;
    }

    /** One round of the second loop: lines 405-432. */
    method FreeNode(tpTask: TpTask, ghost k: nat, ghost list: seq<Entry>)
      requires ShowsList(arena, nodes, list) && Links(nodes) && Owners(nodes, tasks, list) && Ordered(list)
      requires k < |nodes| && tpTask == nodes[k]
      modifies `task, `lastTask, `nodes, nodes`next, nodes`prev, tpTask`freed
      ensures k < |list| && nodes == old(nodes[..k] + nodes[k + 1..])
      ensures ShowsList(arena, nodes, Without(list, k)) && Links(nodes) && Owners(nodes, tasks, Without(list, k))
    {
      hide Ordered, Links;
      DistinctListed(list);
      Unlink(tpTask, k);
      Dropped(arena, old(nodes), list, tasks, k);
      assert tpTask !in nodes;
      FreeOnly(tpTask, Without(list, k));
    }

    method FreeOnly(tpTask: TpTask, ghost list: seq<Entry>)
      requires ShowsList(arena, nodes, list) && tpTask !in nodes
      modifies tpTask`freed
      ensures ShowsList(arena, nodes, list)
    {
      tpTask.freed := true;
    }

    lemma DistinctListed(list: seq<Entry>)
      requires ShowsList(arena, nodes, list) && Ordered(list)
      ensures |nodes| == |list| && forall i, j | 0 <= i < j < |nodes| :: nodes[i] != nodes[j]
    {
      forall i, j | 0 <= i < j < |nodes| ensures nodes[i] != nodes[j] { assert Before(list[i], list[j]); }
    }

    /** Cell number i of a task holds the node of that push. */
    lemma CellNode(list: seq<Entry>, t: ThreadTask, ids: seq<nat>, from: nat, i: nat)
      requires ShowsList(arena, nodes, list) && ShowsCells(arena, t, ids)
      requires from <= i < |ids| && TaskOk(list, t.name, ids[from..])
      ensures |t.cells| == |ids| && t.cells[i].next == (if i + 1 < |ids| then t.cells[i + 1] else null)
      ensures var k := Find(list, ids[i]);
        && k < |list| == |nodes| && t.cells[i].tpTask == nodes[k] && ShowsNode(nodes[k], list[k])
        && list[k].task == t.name
    {
      assert Has(list, ids[from..][i - from], t.name);
    }

    /** Lines 389-399: may every push of the task be freed? */
    method Freeable(t: ThreadTask, ghost s: Pool) returns (ok: bool)
      requires ShowsList(arena, nodes, s.list) && Ordered(s.list) && PushesOk(s.list, s.pushes)
      requires t.name in s.pushes && ShowsCells(arena, t, s.pushes[t.name])
      ensures ok <==> Deletable(s.list, t.name)
    {
      hide Ordered, ShowsList;
      ghost var ids := s.pushes[t.name];
      ghost var i := 0;
      assert ids[0..] == ids;
      var listIt := t.list;
      while listIt != null
        invariant i <= |ids| == |t.cells| && listIt == (if i < |ids| then t.cells[i] else null)
        invariant forall j | 0 <= j < i :: LooseAt(s.list, ids[j])
        decreases |ids| - i
      {
        CellNode(s.list, t, ids, 0, i);
        var tpTask := listIt.tpTask;
        if !(tpTask.isJoined || (tpTask.isDetached && tpTask.isFinished)) {
          assert s.list[Find(s.list, ids[i])] in s.list;
          return false;
        }
        listIt := listIt.next;
        i := i + 1;
      }
      AllLoose(s, t.name);
      return true;
    }

    /** Lines 401-435 and 446: free the nodes of the task. */
    method FreeNodes(t: ThreadTask, ghost s: Pool)
      requires ShowsList(arena, nodes, s.list) && Links(nodes) && Owners(nodes, tasks, s.list)
      requires Ordered(s.list) && PushesOk(s.list, s.pushes)
      requires t.name in s.pushes && ShowsCells(arena, t, s.pushes[t.name]) && ShowsCounters(s)
      modifies `task, `lastTask, `nodes, `tasksCnt, nodes`next, nodes`prev, nodes`freed
      ensures ShowsList(arena, nodes, RemoveTask(s.list, t.name)) && Links(nodes)
      ensures Owners(nodes, tasks, RemoveTask(s.list, t.name))
      ensures ShowsCounters(s.(tasksCnt := s.tasksCnt - |s.pushes[t.name]|))
      ensures forall i | 0 <= i < |nodes| :: nodes[i] in old(nodes)
    {
      hide ShowsList, Links, Owners, PushesOk, Ordered, RemoveTask, TaskOk, Freeing, ShowsCounters;
      ghost var ids, name := s.pushes[t.name], t.name;
      ghost var i, list := 0, s.list;
      NoneFreed(s, name);
      var deletedTasksCnt := 0;
      var listIt := t.list;
      while listIt != null
        invariant i <= |ids| == |t.cells| && listIt == (if i < |ids| then t.cells[i] else null)
        invariant deletedTasksCnt == i && ShowsCounters(s)
        invariant ShowsList(arena, nodes, list) && Links(nodes) && Owners(nodes, tasks, list)
        invariant Freeing(s, name, i, list)
        invariant forall j | 0 <= j < |nodes| :: nodes[j] in old(nodes)
        decreases |ids| - i
      {
        FreedOne(s, name, i, list);
        CellNode(list, t, ids, i, i);
        ghost var k := Find(list, ids[i]);
        var tpTask := listIt.tpTask;
        assert tpTask in nodes && tpTask in old(nodes);
        FreeNode(tpTask, k, list);
        list := Without(list, k);
        listIt := listIt.next;
        deletedTasksCnt := deletedTasksCnt + 1;
        i := i + 1;
      }
      AllFreed(s, name, list);
      Uncount(deletedTasksCnt, s);
    }

    /** Line 446. */
    method Uncount(n: nat, ghost s: Pool)
      requires ShowsCounters(s)
      modifies `tasksCnt
      ensures ShowsCounters(s.(tasksCnt := s.tasksCnt - n))
    {
      tasksCnt := tasksCnt - n;
    }

    static lemma TasksWithout(ar: seq<TpTask>, ns: seq<TpTask>, ts: map<nat, ThreadTask>, s: Pool, t: nat)
      requires ShowsTasks(ar, ts, s.pushes) && Owners(ns, ts, RemoveTask(s.list, t)) && t in ts
      ensures ShowsTasks(ar, ts - {t}, s.pushes - {t}) && Owners(ns, ts - {t}, RemoveTask(s.list, t))
    {
      hide ShowsCells;
      forall i | 0 <= i < |ns| ensures RemoveTask(s.list, t)[i].task != t {
        assert RemoveTask(s.list, t)[i] in RemoveTask(s.list, t);
      }
    }

    ghost predicate Holds(t: ThreadTask)
      reads `tasks
    {
      t.name in tasks && tasks[t.name] == t
    }

    /** Lines 379-449: free a task and all its pushes, unless one of them may not be freed yet. */
    method DeleteTask(t: ThreadTask, ghost s: Pool) returns (deleted: bool)
      requires Shows(s) && Ordered(s.list) && PushesOk(s.list, s.pushes) && t.name in s.pushes && Holds(t)
      modifies `task, `lastTask, `nodes, `tasks, `tasksCnt, nodes`next, nodes`prev, nodes`freed
      ensures Shows(PoolModel.DeleteTask(s, t.name).0)
      ensures deleted <==> PoolModel.DeleteTask(s, t.name).1 == Ok
      ensures forall i | 0 <= i < |nodes| :: nodes[i] in old(nodes)
      ensures tasks == if deleted then old(tasks) - {t.name} else old(tasks)
    {
      hide ShowsList, Links, Owners, PushesOk, Ordered, RemoveTask, ShowsTasks, Deletable, ShowsCounters, Shows;
      Cells(t, s);
      deleted := true;
      if t.list == null {
        OwnPushes(s, t.name);
        NothingToFree(s, t.name);
        FreeTask(t, s);
      } else {
        deleted := Freeable(t, s);
        if deleted {
          FreeNodes(t, s);
          FreeTask(t, s);
        }
      }
      if deleted { Gone(t.name, s); }
    }

    lemma Gone(t: nat, s: Pool)
      requires ShowsList(arena, nodes, RemoveTask(s.list, t)) && Links(nodes) && t in s.pushes && Deletable(s.list, t)
      requires ShowsTasks(arena, tasks, s.pushes - {t}) && Owners(nodes, tasks, RemoveTask(s.list, t))
      requires ShowsCounters(s.(tasksCnt := s.tasksCnt - |s.pushes[t]|))
      ensures Shows(PoolModel.DeleteTask(s, t).0)
    {
      hide ShowsList, Links, Owners, RemoveTask, ShowsTasks, Deletable;
    }

    /** Line 445. */
    method FreeTask(t: ThreadTask, ghost s: Pool)
      requires Holds(t) && ShowsTasks(arena, tasks, s.pushes) && Owners(nodes, tasks, RemoveTask(s.list, t.name))
      modifies `tasks
      ensures ShowsTasks(arena, tasks, s.pushes - {t.name}) && Owners(nodes, tasks, RemoveTask(s.list, t.name))
      ensures tasks == old(tasks) - {t.name}
    {
      TasksWithout(arena, nodes, tasks, s, t.name);
      tasks := tasks - {t.name};
    }

    lemma Cells(t: ThreadTask, s: Pool)
      requires Shows(s) && Holds(t)
      ensures t.name in s.pushes && ShowsCells(arena, t, s.pushes[t.name]) && t in tasks.Values
      ensures ShowsList(arena, nodes, s.list) && Links(nodes) && ShowsTasks(arena, tasks, s.pushes)
      ensures Owners(nodes, tasks, s.list) && ShowsCounters(s)
      ensures t.list == null <==> s.pushes[t.name] == []
    {
      hide ShowsList, Links, Owners;
    }

    /** thread_task_delete. */
    method TaskDelete(t: ThreadTask) returns (reply: Reply)
      requires Enabled(view, Delete(t.name)) && Holds(t) && Valid()
      modifies this, nodes
      ensures (view, reply) == Apply(old(view), Delete(t.name))
      ensures Shows(view) && Shrinks() && (!Drops(old(view), Delete(t.name)) ==> Valid())
    {
      hide Inv, Shows, Apply, Drops, Enabled, PushesOk, Ordered, ShowsCells, PoolModel.DeleteTask;
      Known(t, view);
      ghost var a := Delete(t.name);
      ghost var next := Apply(view, a).0;
      if !Drops(view, a) { DeleteInv(view, t.name); }
      Deletes(view, t.name);
      var deleted := DeleteTask(t, view);
      view := next;
      reply := if deleted then Ok else Fails(TaskInPool);
    }

    /** What Valid says about one task. */
    lemma Known(t: ThreadTask, s: Pool)
      requires Shows(s) && Holds(t) && Inv(s)
      ensures t.name in s.pushes && Ordered(s.list) && PushesOk(s.list, s.pushes)
      ensures t in tasks.Values && ShowsCells(arena, t, s.pushes[t.name])
      ensures Pushed(s, t.name) ==>
        && t.list != null && Latest(s, t.name) < |s.list| == |nodes|
        && t.list.tpTask == nodes[Latest(s, t.name)]
        && s.list[Latest(s, t.name)].task == t.name
      ensures !Pushed(s, t.name) ==> t.list == null
      ensures ShowsList(arena, nodes, s.list)
    {
      hide ShowsNode, EntriesOk, HistoryOk, WorkersOk, CountsOk, ClientsOk, SleepOk;
      if Pushed(s, t.name) { LatestEntry(s, t.name); }
    }

    // -------------------------------------------------------------- finishing a push

    /** t is the node of the entry that carries its number. */
    lemma NodeOf(t: TpTask, s: Pool)
      requires Inv(s) && Shows(s) && t in nodes
      ensures var k := Find(s.list, t.id);
        && k < |s.list| == |nodes| && nodes[k] == t && s.list[k].id == t.id && ShowsNode(t, s.list[k])
        && Holds(t.threadTask) && t.threadTask.name == s.list[k].task && s.list[k].task in s.pushes
    {
      hide ShowsNode, EntriesOk, HistoryOk, WorkersOk, CountsOk, ClientsOk, SleepOk, PushesOk, ShowsCells;
      var i :| 0 <= i < |nodes| && nodes[i] == t;
      assert s.list[i].id == t.id;
      FindAt(s.list, i);
    }

    method SetFinished(t: TpTask, r: int, ghost k: nat, ghost list: seq<Entry>)
      requires ShowsList(arena, nodes, list) && Ordered(list) && k < |nodes| && t == nodes[k] && t.result == r
      modifies t`isFinished, t`isRunning
      ensures k < |list| && ShowsList(arena, nodes, list[k := list[k].(phase := Finished(r))])
    {
      DistinctListed(list);
      hide Ordered;
      t.isFinished := true;
      t.isRunning := false;
    }

    method SetResult(t: TpTask, r: int, ghost k: nat, ghost list: seq<Entry>)
      requires ShowsList(arena, nodes, list) && Ordered(list) && k < |nodes| && t == nodes[k]
      requires k < |list| && !list[k].phase.Finished?
      modifies t`result
      ensures t.result == r && ShowsList(arena, nodes, list)
    {
      DistinctListed(list);
      hide Ordered;
      t.result := r;
    }

    method SetWaiter(t: TpTask, waiter: Waiter, ghost k: nat, ghost list: seq<Entry>)
      requires ShowsList(arena, nodes, list) && Ordered(list) && k < |nodes| && t == nodes[k]
      modifies t`endCond
      ensures k < |list| && ShowsList(arena, nodes, list[k := list[k].(waiter := waiter)])
    {
      DistinctListed(list);
      hide Ordered;
      t.endCond := waiter;
    }

    method SetJoined(t: TpTask, ghost k: nat, ghost list: seq<Entry>)
      requires ShowsList(arena, nodes, list) && Ordered(list) && k < |nodes| && t == nodes[k]
      modifies t`isJoined
      ensures k < |list| && ShowsList(arena, nodes, list[k := list[k].(joined := true)])
    {
      DistinctListed(list);
      hide Ordered;
      t.isJoined := true;
    }

    method SetDetached(t: TpTask, ghost k: nat, ghost list: seq<Entry>)
      requires ShowsList(arena, nodes, list) && Ordered(list) && k < |nodes| && t == nodes[k]
      modifies t`isDetached
      ensures k < |list| && ShowsList(arena, nodes, list[k := list[k].(detached := true)])
    {
      DistinctListed(list);
      hide Ordered;
      t.isDetached := true;
    }

    /** Lines 312-317. */
    method MarkFinished(t: TpTask, w: nat, r: int, ghost k: nat)
      requires Enabled(view, PoolModel.Finish(w, r)) && k == Find(view.list, view.workers[w].entry)
      requires Shows(view) && Ordered(view.list) && k < |nodes| && t == nodes[k] && !view.list[k].phase.Finished?
      modifies t`result, t`isFinished, t`isRunning, `activeThreadsCnt, `workers
      ensures Shows(Marked(view, w, r))
    {
      hide Links, ShowsTasks, ShowsList, Ordered, Find;
      SetResult(t, r, k, view.list);
      SetFinished(t, r, k, view.list);
      activeThreadsCnt := activeThreadsCnt - 1;
      workers := workers[w := Ready];
    }

    /** Lines 314-323: the function of the task has returned r. */
    method Finish(w: nat, r: int, t: TpTask)
      requires Enabled(view, PoolModel.Finish(w, r)) && t.id == view.workers[w].entry && t in nodes && Valid()
      modifies this, nodes
      ensures view == Apply(old(view), PoolModel.Finish(w, r)).0
      ensures Shows(view) && Shrinks() && (!Drops(old(view), PoolModel.Finish(w, r)) ==> Valid())
    {
      hide Inv, Shows, Apply, Enabled, Drops;
      ghost var a, s := PoolModel.Finish(w, r), view;
      if !Drops(s, a) { FinishInv(s, w, r); }
      NodeOf(t, s);
      Complete(w, r, t, Find(s.list, t.id), s);
      view := Apply(s, a).0;
    }

    /** t is node number k, with its task. */
    ghost predicate IsNode(t: TpTask, k: nat, s: Pool)
      reads `nodes, `tasks, t
    {
      && k < |nodes| == |s.list| && t == nodes[k] && t in nodes && ShowsNode(t, s.list[k])
      && Holds(t.threadTask) && t.threadTask.name == s.list[k].task
    }

    /** The same on the structures only. */
    method Complete(w: nat, r: int, t: TpTask, ghost k: nat, ghost s: Pool)
      requires Enabled(s, PoolModel.Finish(w, r)) && k == Find(s.list, s.workers[w].entry)
      requires s == view && Inv(s) && Shows(s) && IsNode(t, k, s)
      modifies `task, `lastTask, `nodes, `tasks, `tasksCnt, `activeThreadsCnt, `workers, nodes
      ensures Shows(Apply(s, PoolModel.Finish(w, r)).0) && Shrinks()
    {
      hide Inv, Shows, Apply, Enabled, Finished1, Marked, PoolModel.DeleteTask;
      Finishable(s, w, r);
      MarkFinished(t, w, r, k);
      if t.isDetached {
        var _ := DeleteTask(t.threadTask, Finished1(s, w, r));
      }
      // pthread_cond_signal
      if t.endCond.Blocked? {
        SetEndCond(t, Woken(t.endCond.timed), k, Marked(s, w, r));
      }
    }

    method SetEndCond(t: TpTask, waiter: Waiter, ghost k: nat, ghost s: Pool)
      requires Shows(s) && Ordered(s.list) && k < |nodes| && t == nodes[k]
      modifies t`endCond
      ensures k < |s.list| && Shows(s.(list := s.list[k := s.list[k].(waiter := waiter)]))
    {
      hide Links, ShowsTasks, ShowsList, Ordered;
      SetWaiter(t, waiter, k, s.list);
    }

    // -------------------------------------------------------------- clients

    /** thread_task_join and thread_task_timed_join, up to the wait on end_cond. */
    method Join(t: ThreadTask, timeout: Timeout) returns (reply: Reply)
      requires Enabled(view, PoolModel.Join(t.name, timeout)) && Disciplined(view, PoolModel.Join(t.name, timeout))
      requires Holds(t) && Valid()
      modifies this, nodes
      ensures (view, reply) == Apply(old(view), PoolModel.Join(t.name, timeout))
      ensures Valid() && nodes == old(nodes) && tasks == old(tasks)
    {
      hide Inv, Shows, Enabled, Disciplined;
      ghost var a, s := PoolModel.Join(t.name, timeout), view;
      Known(t, s);
      StepInv(s, a);
      var tpTask := t.GetTpTask();
      if tpTask == null { return Fails(TaskNotPushed); }
      if timeout.NonPositive? { return Fails(TimedOut); }
      ghost var k := Latest(s, t.name);
      NodeAt(tpTask, k, s);
      JoinNode(tpTask, timeout.Positive?, k, s);
      reply := if tpTask.isFinished then Value(tpTask.result) else Blocks;
      view := Apply(view, a).0;
    }

    lemma NodeAt(t: TpTask, k: nat, s: Pool)
      requires Shows(s) && k < |nodes| && t == nodes[k]
      ensures k < |s.list| && ShowsNode(t, s.list[k]) && t in nodes
    {
      hide Links, ShowsTasks, Owners;
    }

    /** Lines 256-261 and 354-361. */
    method JoinNode(t: TpTask, timed: bool, ghost k: nat, ghost s: Pool)
      requires Shows(s) && Ordered(s.list) && k < |nodes| && t == nodes[k]
      modifies t`isJoined, t`endCond
      ensures k < |s.list| && t.isFinished == old(t.isFinished) && t.result == old(t.result)
      ensures var e := s.list[k].(joined := true);
        Shows(s.(list := s.list[k := if e.phase.Finished? then e else e.(waiter := Blocked(timed))]))
    {
      hide Shows, Ordered;
      NodeAt(t, k, s);
      JoinedNode(t, k, s);
      if !t.isFinished {
        ghost var s1 := s.(list := s.list[k := s.list[k].(joined := true)]);
        StillOrdered(s.list, s1.list);
        SetEndCond(t, Blocked(timed), k, s1);
        ghost var e := s1.list[k].(waiter := Blocked(timed));
        assert s1.list[k := e] == s.list[k := e];
      }
    }

    method JoinedNode(t: TpTask, ghost k: nat, ghost s: Pool)
      requires Shows(s) && Ordered(s.list) && k < |nodes| && t == nodes[k]
      modifies t`isJoined
      ensures k < |s.list| && Shows(s.(list := s.list[k := s.list[k].(joined := true)]))
    {
      hide Links, ShowsTasks, ShowsList, Ordered;
      SetJoined(t, k, s.list);
    }

    /** The wait on end_cond is over: lines 263-266 and 369-373. */
    method JoinReturn(t: TpTask) returns (reply: Reply)
      requires Enabled(view, PoolModel.JoinReturn(t.id)) && t in nodes && Valid()
      modifies this, nodes
      ensures (view, reply) == Apply(old(view), PoolModel.JoinReturn(t.id))
      ensures Valid() && nodes == old(nodes) && tasks == old(tasks)
    {
      hide Inv, Shows;
      ghost var a, s := PoolModel.JoinReturn(t.id), view;
      NodeOf(t, s);
      StepInv(s, a);
      EndWait(t, s);
      view := Apply(s, a).0;
      return Value(t.result);
    }

    /** Lines 362-366. */
    method JoinTimeOut(t: TpTask) returns (reply: Reply)
      requires Enabled(view, PoolModel.JoinTimeOut(t.id)) && t in nodes && Valid()
      modifies this, nodes
      ensures (view, reply) == Apply(old(view), PoolModel.JoinTimeOut(t.id))
      ensures Valid() && nodes == old(nodes) && tasks == old(tasks)
    {
      hide Inv, Shows;
      ghost var a, s := PoolModel.JoinTimeOut(t.id), view;
      NodeOf(t, s);
      StepInv(s, a);
      EndWait(t, s);
      view := Apply(s, a).0;
      return Fails(TimedOut);
    }

    /** A joiner leaves the condition variable. */
    method EndWait(t: TpTask, ghost s: Pool)
      requires Inv(s) && Shows(s) && t in nodes
      modifies t`endCond
      ensures var k := Find(s.list, t.id);
        k < |s.list| && Shows(s.(list := s.list[k := s.list[k].(waiter := Nobody)]))
    {
      hide Inv, Shows, ShowsNode, Find, Ordered;
      NodeOf(t, s);
      InvOrdered(s);
      SetEndCond(t, Nobody, Find(s.list, t.id), s);
    }

    /** Lines 482-499. */
    method Detach(t: ThreadTask) returns (reply: Reply)
      requires Enabled(view, PoolModel.Detach(t.name)) && Holds(t) && Valid()
      modifies this, nodes
      ensures (view, reply) == Apply(old(view), PoolModel.Detach(t.name)) && Shows(view) && Shrinks()
      ensures var a := PoolModel.Detach(t.name);
        Disciplined(old(view), a) && !Drops(old(view), a) ==> Valid()
    {
      hide Inv, Shows, Enabled, Disciplined, Drops, Apply, Ordered, PushesOk, ShowsCells;
      ghost var a, s := PoolModel.Detach(t.name), view;
      Known(t, s);
      Detaches(s, t.name);
      if Disciplined(s, a) && !Drops(s, a) { DetachInv(s, t.name); }
      var tpTask := t.GetTpTask();
      if tpTask == null { return Fails(TaskNotPushed); }
      ghost var k := Latest(s, t.name);
      DetachLatest(t, tpTask, k, s);
      view := Apply(view, a).0;
      return Ok;
    }

    /** Lines 492-496. */
    method DetachLatest(t: ThreadTask, tpTask: TpTask, ghost k: nat, ghost s: Pool)
      requires Shows(s) && Ordered(s.list) && PushesOk(s.list, s.pushes) && t.name in s.pushes && Holds(t)
      requires k < |nodes| == |s.list| && tpTask == nodes[k]
      modifies `task, `lastTask, `nodes, `tasks, `tasksCnt, nodes`next, nodes`prev, nodes`freed, tpTask`isDetached
      ensures var s1 := s.(list := s.list[k := s.list[k].(detached := true)]);
        Shows(if s.list[k].phase.Finished? then PoolModel.DeleteTask(s1, t.name).0 else s1)
      ensures Shrinks()
    {
      hide Shows, ShowsCells, Ordered, PushesOk, PoolModel.DeleteTask;
      NodeAt(tpTask, k, s);
      DetachNode(tpTask, k, s);
      ghost var s1 := s.(list := s.list[k := s.list[k].(detached := true)]);
      StillOrdered(s.list, s1.list);
      PushesSame(s.list, s1.list, s.pushes);
      if tpTask.isFinished {
        var _ := DeleteTask(t, s1);
      }
    }

    method DetachNode(t: TpTask, ghost k: nat, ghost s: Pool)
      requires Shows(s) && Ordered(s.list) && k < |nodes| && t == nodes[k]
      modifies t`isDetached
      ensures k < |s.list| && Shows(s.(list := s.list[k := s.list[k].(detached := true)]))
    {
      hide Links, ShowsTasks, ShowsList, Ordered;
      SetDetached(t, k, s.list);
    }

    // -------------------------------------------------------------- the pool

    /** Lines 135-147, up to the wait on thread_finish_cond. */
    method PoolDelete() returns (reply: Reply)
      requires Enabled(view, PoolModel.PoolDelete) && Valid()
      modifies this
      ensures (view, reply) == Apply(old(view), PoolModel.PoolDelete)
      ensures Valid() && nodes == old(nodes) && tasks == old(tasks)
    {
      hide Inv, ShowsList, ShowsTasks, Links, Owners;
      StepInv(view, PoolModel.PoolDelete);
      if tasksCnt > 0 { return Fails(HasTasks); }
      isActive := false;
      workers := Broadcast(workers);
      deleter := if threadsCnt != 0 then Sleeping else Returned;
      view := Apply(view, PoolModel.PoolDelete).0;
      return Ok;
    }

    /** The deleting thread wakes up: the loop test of line 144. */
    method PoolDeleteWake()
      requires Enabled(view, PoolModel.PoolDeleteWake) && Valid()
      modifies this
      ensures view == Apply(old(view), PoolModel.PoolDeleteWake).0
      ensures Valid() && nodes == old(nodes) && tasks == old(tasks)
    {
      hide Inv, ShowsList, ShowsTasks, Links, Owners;
      StepInv(view, PoolModel.PoolDeleteWake);
      deleter := if threadsCnt != 0 then Sleeping else Returned;
      view := Apply(view, PoolModel.PoolDeleteWake).0;
    }

    /** thread_task_new. */
    method NewTask(ghost name: nat) returns (t: ThreadTask)
      requires Enabled(view, PoolModel.NewTask(name)) && Valid()
      modifies this
      ensures view == Apply(old(view), PoolModel.NewTask(name)).0
      ensures Valid() && nodes == old(nodes) && tasks == old(tasks)[name := t] && fresh(t)
    {
      hide Inv, Shows, Apply, Enabled;
      StepInv(view, PoolModel.NewTask(name));
      t := new ThreadTask(name);
      AddTask(t);
      view := Apply(view, PoolModel.NewTask(name)).0;
    }

    ghost method AddTask(t: ThreadTask)
      requires Enabled(view, PoolModel.NewTask(t.name)) && Shows(view) && t.list == null && t.cells == []
      modifies `tasks
      ensures Shows(Apply(view, PoolModel.NewTask(t.name)).0) && tasks == old(tasks)[t.name := t]
    {
      hide ShowsList, Links;
      tasks := tasks[t.name := t];
    }

    // -------------------------------------------------------------- push

    /** Lines 77-99: a node for the push, and a cell for it in front of the task's own list. */
    method MakeTask(t: ThreadTask, ghost pushes: map<nat, seq<nat>>) returns (tpTask: TpTask)
      requires ShowsTasks(arena, tasks, pushes) && Holds(t) && nextId == |arena| && t.name in pushes
      modifies t`list, t`cells, `arena, `nextId
      ensures fresh(tpTask) && tpTask.id == old(nextId) && tpTask.threadTask == t && !tpTask.freed
      ensures !tpTask.isFinished && !tpTask.isRunning && !tpTask.isJoined && !tpTask.isDetached
      ensures tpTask.endCond == Nobody && tpTask.next == null && tpTask.prev == null
      ensures arena == old(arena) + [tpTask] && nextId == |arena|
      ensures ShowsTasks(arena, tasks, pushes[t.name := [old(nextId)] + pushes[t.name]])
    {
      hide ShowsTasks;
      tpTask := new TpTask(t, nextId);
      nextId := nextId + 1;
      var newList := new TpTaskList(tpTask, t.list);
      AddCell(t, newList, pushes);
      arena := arena + [tpTask];
    }

    method AddCell(t: ThreadTask, newList: TpTaskList, ghost pushes: map<nat, seq<nat>>)
      requires ShowsTasks(arena, tasks, pushes) && Holds(t) && t.name in pushes && newList.next == t.list
      modifies t`list, t`cells
      ensures ShowsTasks(arena + [newList.tpTask], tasks, pushes[t.name := [|arena|] + pushes[t.name]])
    {
      hide CellRun;
      forall u | u in tasks ensures CellRun(arena + [newList.tpTask], tasks[u].list, tasks[u].cells, pushes[u]) {
        assert ShowsCells(arena, tasks[u], pushes[u]);
        MoreArena(arena, newList.tpTask, tasks[u].list, tasks[u].cells, pushes[u]);
      }
      CellBefore(arena, newList, t.list, t.cells, pushes[t.name]);
      assert forall u | u in tasks && u != t.name :: tasks[u] != t;
      t.list := newList;
      t.cells := [newList] + t.cells;
    }

    /** Lines 183-191. */
    method LinkFirst(tpTask: TpTask)
      requires Links(nodes) && tpTask !in nodes && tpTask.next == null && tpTask.prev == null
      modifies `task, `lastTask, `nodes, tpTask`next, nodes`prev
      ensures Links(nodes) && nodes == [tpTask] + old(nodes)
    {
      tpTask.next := task;
      if task != null { task.prev := tpTask; }
      task := tpTask;
      if lastTask == null { lastTask := tpTask; }
      nodes := [tpTask] + nodes;
    }

    /** Lines 172-176. */
    method CreateThread()
      requires Shows(view)
      modifies `workers, `threadsCnt
      ensures Shows(Staffed(view))
    {
      hide ShowsList, ShowsTasks, Links, Owners;
      if activeThreadsCnt == threadsCnt && threadsCnt < maxThreadsCnt {
        workers := workers + [Ready];
        threadsCnt := threadsCnt + 1;
      }
    }

    static lemma Pushed1(ar: seq<TpTask>, n: TpTask, ns: seq<TpTask>,
                         list: seq<Entry>, ts: map<nat, ThreadTask>, e: Entry)
      requires ShowsList(ar, ns, list) && Owners(ns, ts, list)
      requires n.id == |ar| == e.id && e.task in ts && n.threadTask == ts[e.task] && ShowsNode(n, e)
      ensures ShowsList(ar + [n], [n] + ns, [e] + list) && Owners([n] + ns, ts, [e] + list)
    {
      hide ShowsNode;
    }

    /** Lines 161-197. */
    method Push(t: ThreadTask) returns (reply: Reply)
      requires Enabled(view, PoolModel.Push(t.name)) && Disciplined(view, PoolModel.Push(t.name)) && Holds(t) && Valid()
      modifies this, nodes, t
      ensures (view, reply) == Apply(old(view), PoolModel.Push(t.name))
      ensures Valid() && tasks == old(tasks) && forall n | n in nodes :: n in old(nodes) || fresh(n)
    {
      hide Inv, Shows, Apply, Enabled, Disciplined, Staffed, Inserted;
      PushEffect(view, t.name);
      StepInv(view, PoolModel.Push(t.name));
      ghost var next := Apply(view, PoolModel.Push(t.name)).0;
      CountersAgree(view);
      if tasksCnt == TPOOL_MAX_TASKS { return Fails(TooManyTasks); }
      CreateThread();
      InsertNode(t, Staffed(view));
      Announce(Inserted(Staffed(view), t.name));
      view := next;
      return Ok;
    }

    lemma CountersAgree(s: Pool)
      requires Shows(s)
      ensures tasksCnt == s.tasksCnt
    {
    }

    /** Lines 178-191. */
    method InsertNode(t: ThreadTask, ghost s: Pool)
      requires Shows(s) && Holds(t) && t.name in s.pushes
      modifies `task, `lastTask, `nodes, `arena, `nextId, `tasksCnt, nodes`prev, t`list, t`cells
      ensures Shows(Inserted(s, t.name)) && forall n | n in nodes :: n in old(nodes) || fresh(n)
    {
      hide ShowsList, Links, ShowsTasks, Owners;
      ghost var e := Entry(s.nextId, t.name, Pending, 0, false, false, Nobody);
      NameKnown(t, s);
      var tpTask := MakeTask(t, s.pushes);
      assert ShowsList(old(arena), nodes, s.list) && Links(nodes) && Owners(nodes, tasks, s.list);
      tasksCnt := tasksCnt + 1;
      ListNode(tpTask, e, s.list, old(arena));
    }

    method ListNode(tpTask: TpTask, ghost e: Entry, ghost list: seq<Entry>, ghost ar: seq<TpTask>)
      requires ShowsList(ar, nodes, list) && Links(nodes) && Owners(nodes, tasks, list) && tpTask !in nodes
      requires tpTask.id == |ar| == e.id && e == Entry(e.id, e.task, Pending, 0, false, false, Nobody)
      requires !tpTask.isFinished && !tpTask.isRunning && !tpTask.isJoined && !tpTask.isDetached && !tpTask.freed
      requires e.task in tasks && tpTask.threadTask == tasks[e.task]
      requires tpTask.endCond == Nobody && tpTask.next == null && tpTask.prev == null
      modifies `task, `lastTask, `nodes, tpTask`isPushed, tpTask`next, nodes`prev
      ensures ShowsList(ar + [tpTask], nodes, [e] + list) && Links(nodes) && Owners(nodes, tasks, [e] + list)
      ensures nodes == [tpTask] + old(nodes)
    {
      hide ShowsList, Links, Owners;
      SetPushed(tpTask, list, ar);
      Pushed1(ar, tpTask, nodes, list, tasks, e);
      LinkFirst(tpTask);
    }

    /** Line 181. */
    method SetPushed(tpTask: TpTask, ghost list: seq<Entry>, ghost ar: seq<TpTask>)
      requires ShowsList(ar, nodes, list) && tpTask !in nodes
      modifies tpTask`isPushed
      ensures ShowsList(ar, nodes, list) && tpTask.isPushed
    {
      tpTask.isPushed := true;
    }

    lemma NameKnown(t: ThreadTask, s: Pool)
      requires Shows(s) && Holds(t)
      ensures t in tasks.Values
    {
    }

    /** Line 193. */
    method Announce(ghost s: Pool)
      requires Shows(s)
      modifies `workers
      ensures Shows(s.(workers := Broadcast(s.workers)))
    {
      hide Broadcast, ShowsList, ShowsTasks, Links, Owners;
      workers := Broadcast(workers);
    }

    // -------------------------------------------------------------- driving the pool

    /** The node a thread keeps in a local variable across its critical sections. */
    method NodeNumbered(id: nat) returns (t: TpTask)
      requires Find(view.list, id) < |view.list| && Shows(view)
      ensures t in nodes && t.id == id
    {
      hide ShowsNode, ShowsTasks;
      ghost var i := 0;
      ghost var k := Find(view.list, id);
      var p := task;
      while p != null && p.id != id
        invariant i <= k && p == At(i)
        decreases |nodes| - i
      {
        p := p.next;
        i := i + 1;
      }
      return p;
    }
  }

  ghost predicate Reaches(pool: ThreadPool, handles: map<nat, ThreadTask>)
    reads pool`tasks
  {
    forall t | t in pool.tasks :: t in handles && handles[t] == pool.tasks[t]
  }

  /** Whatever the pool now consists of, it had before, or it is new. */
  twostate predicate Grows(pool: ThreadPool)
    reads pool
  {
    && (forall i | 0 <= i < |pool.nodes| :: pool.nodes[i] in old(pool.nodes) || fresh(pool.nodes[i]))
    && (forall t | t in pool.tasks.Values :: t in old(pool.tasks.Values) || fresh(t))
  }

  /** One step of one thread. */
  method Execute(pool: ThreadPool, handles: map<nat, ThreadTask>, a: Action)
    returns (reply: Reply, handles': map<nat, ThreadTask>)
    requires Enabled(pool.view, a) && Disciplined(pool.view, a) && !Drops(pool.view, a)
    requires Reaches(pool, handles) && pool.Valid()
    modifies pool, pool.nodes, pool.tasks.Values
    ensures (pool.view, reply) == Apply(old(pool.view), a)
    ensures pool.Valid() && Grows(pool) && Reaches(pool, handles')
  {
    hide Inv, Apply, Disciplined, Drops, ThreadPool.Shows;
    KnownTasks(pool);
    PlainReply(pool.view, a);
    handles' := handles;
    match a
    case NewTask(name) =>
      var t := pool.NewTask(name);
      handles' := handles[name := t];
      reply := Ok;
    case Push(t) => reply := pool.Push(handles[t]);
    case Join(t, timeout) => reply := pool.Join(handles[t], timeout);
    case JoinReturn(id) =>
      var n := pool.NodeNumbered(id);
      reply := pool.JoinReturn(n);
    case JoinTimeOut(id) =>
      var n := pool.NodeNumbered(id);
      reply := pool.JoinTimeOut(n);
    case Detach(t) => reply := pool.Detach(handles[t]);
    case Delete(t) => reply := pool.TaskDelete(handles[t]);
    case PoolDelete => reply := pool.PoolDelete();
    case PoolDeleteWake => pool.PoolDeleteWake(); reply := Ok;
    case Take(w) => pool.Enter(w); reply := Ok;
    case Sleep(w) => pool.Enter(w); reply := Ok;
    case Quit(w) => pool.Enter(w); reply := Ok;
    case Finish(w, r) =>
      var n := pool.NodeNumbered(pool.workers[w].entry);
      pool.Finish(w, r, n);
      reply := Ok;
  }

  lemma KnownTasks(pool: ThreadPool)
    requires pool.Valid()
    ensures forall t | t in pool.view.pushes ::
      t in pool.tasks && pool.tasks[t].name == t && pool.tasks[t] in pool.tasks.Values
    ensures pool.workers == pool.view.workers && pool.Shows(pool.view)
  {
    hide Inv, ThreadPool.ShowsList, ThreadPool.Links, ThreadPool.Owners;
  }

  lemma PlainReply(s: Pool, a: Action)
    requires Enabled(s, a)
    ensures a.NewTask? || ByWorker(a) || a.PoolDeleteWake? ==> Apply(s, a).1 == Ok
    ensures a.Take? || a.Sleep? || a.Quit? ==> s.workers[a.w].Ready? && Entering(s, a.w) == a
    ensures a.Finish? ==> Find(s.list, s.workers[a.w].entry) < |s.list|
  {
  }

  /**
   * Threads taking any legal steps in any order: the linked structures go through exactly the states of
   * the machine, and every call returns what the machine says.
   */
  method Replay(pool: ThreadPool, handles: map<nat, ThreadTask>, acts: seq<Action>) returns (replies: seq<Reply>)
    requires Legal(pool.view, acts) && Reaches(pool, handles) && pool.Valid()
    modifies pool, pool.nodes, pool.tasks.Values
    ensures pool.view == End(old(pool.view), acts) && replies == Replies(old(pool.view), acts)
    ensures pool.Valid()
    decreases |acts|
  {
    hide ThreadPool.Valid, Apply, Enabled, Disciplined, Drops;
    if acts == [] { return []; }
    var reply, handles' := Execute(pool, handles, acts[0]);
    var rest := Replay(pool, handles', acts[1..]);
    return [reply] + rest;
  }

  lemma PushEffect(s: Pool, t: nat)
    requires Enabled(s, Push(t))
    ensures t in s.pushes
    ensures s.tasksCnt == TPOOL_MAX_TASKS ==> Apply(s, Push(t)) == (s, Fails(TooManyTasks))
    ensures s.tasksCnt != TPOOL_MAX_TASKS ==>
      var u := Inserted(Staffed(s), t);
      Apply(s, Push(t)) == (u.(workers := Broadcast(u.workers)), Ok)
  {
  }

  /** The pool after lines 178-191. */
  ghost function Inserted(s: Pool, t: nat): Pool
    requires t in s.pushes
  {
    s.(list := [Entry(s.nextId, t, Pending, 0, false, false, Nobody)] + s.list,
       pushes := s.pushes[t := [s.nextId] + s.pushes[t]], tasksCnt := s.tasksCnt + 1, nextId := s.nextId + 1)
  }

  /** The pool after lines 172-176. */
  ghost function Staffed(s: Pool): (u: Pool)
    ensures u.pushes == s.pushes && u.list == s.list
  {
    if s.activeCnt == s.threadsCnt && s.threadsCnt < s.maxThreads then
      s.(workers := s.workers + [Ready], threadsCnt := s.threadsCnt + 1)
    else s
  }

  lemma StillOrdered(a: seq<Entry>, b: seq<Entry>)
    requires Ordered(a) && |a| == |b| && forall i | 0 <= i < |a| :: SameRun(a[i], b[i])
    ensures Ordered(b)
  {
    forall i, j | 0 <= i < j < |b| ensures Before(b[i], b[j]) { assert Before(a[i], a[j]); }
  }

  lemma Detaches(s: Pool, t: nat)
    requires Enabled(s, Detach(t))
    ensures !Pushed(s, t) ==> Apply(s, Detach(t)) == (s, Fails(TaskNotPushed))
    ensures Pushed(s, t) ==>
      var k := Latest(s, t);
      var s1 := s.(list := s.list[k := s.list[k].(detached := true)]);
      Apply(s, Detach(t)) == (if s.list[k].phase.Finished? then DeleteTask(s1, t).0 else s1, Ok)
  {
  }

  lemma InvOrdered(s: Pool)
    requires Inv(s)
    ensures Ordered(s.list)
  {
  }

  /** The pool after lines 314-317. */
  ghost function Marked(s: Pool, w: nat, r: int): Pool
    requires Enabled(s, Finish(w, r))
  {
    var k := Find(s.list, s.workers[w].entry);
    s.(list := s.list[k := s.list[k].(phase := Finished(r))], workers := s.workers[w := Ready],
       activeCnt := s.activeCnt - 1, finished := s.finished + {s.list[k].id})
  }

  /** How the rest of the step follows from there. */
  lemma Finishable(s: Pool, w: nat, r: int)
    requires Inv(s) && Enabled(s, Finish(w, r))
    ensures var k, m, t := Find(s.list, s.workers[w].entry), Marked(s, w, r), Finished1(s, w, r);
      && k < |s.list| == |m.list| && !s.list[k].phase.Finished? && Ordered(s.list) && Ordered(m.list)
      && Ordered(t.list) && PushesOk(t.list, t.pushes)
      && t == (if s.list[k].waiter.Blocked? then
                 m.(list := m.list[k := m.list[k].(waiter := Woken(s.list[k].waiter.timed))])
               else m)
      && (s.list[k].detached ==>
            && !s.list[k].waiter.Blocked? && s.list[k].task in t.pushes
            && Apply(s, Finish(w, r)).0 == DeleteTask(t, s.list[k].task).0)
      && (!s.list[k].detached ==> Apply(s, Finish(w, r)).0 == t)
  {
    hide Inv, Ordered, PushesOk, Find;
    InvOrdered(s);
    FinishEntries(s, w, r);
    FinishPushes(s, w, r);
    MarkedOrder(s, w, r);
    RunningTask(s, w);
  }

  lemma RunningTask(s: Pool, w: nat)
    requires Inv(s) && w < |s.workers| && s.workers[w].Working?
    ensures var k := Find(s.list, s.workers[w].entry);
      && k < |s.list| && s.list[k].phase.Running? && s.list[k].task in s.pushes
      && (s.list[k].detached ==> !s.list[k].waiter.Blocked?)
  {
    hide Ordered, EntriesOk, HistoryOk, CountsOk, SleepOk, ClientsOk;
    RunningEntry(s, w);
    NobodyWaits(s, Find(s.list, s.workers[w].entry));
  }

  lemma NobodyWaits(s: Pool, k: nat)
    requires ClientsOk(s.list) && k < |s.list|
    ensures s.list[k].detached ==> !s.list[k].waiter.Blocked?
  {
    assert s.list[k].detached ==> s.list[k].waiter.Nobody?;
  }

  lemma MarkedOrder(s: Pool, w: nat, r: int)
    requires Enabled(s, Finish(w, r)) && Ordered(Finished1(s, w, r).list)
    ensures Ordered(Marked(s, w, r).list)
  {
    var m := Marked(s, w, r);
    forall i, j | 0 <= i < j < |m.list| ensures Before(m.list[i], m.list[j]) {
      assert Before(Finished1(s, w, r).list[i], Finished1(s, w, r).list[j]);
    }
  }

  lemma NothingToFree(s: Pool, t: nat)
    requires CountTask(s.list, t) == 0 && t in s.pushes && s.pushes[t] == []
    ensures RemoveTask(s.list, t) == s.list && Deletable(s.list, t)
    ensures PoolModel.DeleteTask(s, t) == (s.(pushes := s.pushes - {t}), Ok)
  {
    hide RemoveTask, CountTask, Loose;
    NoEntries(s.list, t);
    assert Deletable(s.list, t);
    hide Deletable;
  }

  lemma Deletes(s: Pool, t: nat)
    requires Inv(s) && t in s.pushes
    ensures Enabled(s, Delete(t)) && PoolModel.DeleteTask(s, t) == Apply(s, Delete(t))
    ensures PoolModel.DeleteTask(s, t).1 == Ok || PoolModel.DeleteTask(s, t).1 == Fails(TaskInPool)
  {
    hide Ordered, EntriesOk, HistoryOk, WorkersOk, CountsOk, ClientsOk, SleepOk, PushesOk;
    if s.pushes[t] == [] {
      OwnPushes(s, t);
      NothingToFree(s, t);
    }
  }

  /** The entry of a push is loose. */
  predicate LooseAt(list: seq<Entry>, id: nat) { Find(list, id) < |list| && Loose(list[Find(list, id)]) }

  lemma AllLoose(s: Pool, t: nat)
    requires Ordered(s.list) && PushesOk(s.list, s.pushes) && t in s.pushes
    requires forall j | 0 <= j < |s.pushes[t]| :: LooseAt(s.list, s.pushes[t][j])
    ensures Deletable(s.list, t)
  {
    hide PushesOk, Ordered;
    forall e | e in s.list && e.task == t ensures Loose(e) {
      FindMember(s.list, e);
      OwnPush(s, e);
      var j :| 0 <= j < |s.pushes[t]| && s.pushes[t][j] == e.id;
      assert LooseAt(s.list, s.pushes[t][j]);
    }
  }

  function Without(list: seq<Entry>, k: nat): seq<Entry>
    requires k < |list|
  {
    list[..k] + list[k + 1..]
  }

  lemma OwnPush(s: Pool, e: Entry)
    requires PushesOk(s.list, s.pushes) && e in s.list
    ensures e.task in s.pushes && e.id in s.pushes[e.task]
  {
  }

  /** The list after the i newest pushes of t have been taken out. */
  ghost predicate Freeing(s: Pool, t: nat, i: nat, list: seq<Entry>)
    requires t in s.pushes
  {
    && i <= |s.pushes[t]| && Ordered(list) && TaskOk(list, t, s.pushes[t][i..])
    && CountTask(list, t) == |s.pushes[t]| - i && RemoveTask(list, t) == RemoveTask(s.list, t)
  }

  lemma NoneFreed(s: Pool, t: nat)
    requires Ordered(s.list) && PushesOk(s.list, s.pushes) && t in s.pushes
    ensures Freeing(s, t, 0, s.list)
  {
    OwnPushes(s, t);
    assert s.pushes[t][0..] == s.pushes[t];
  }

  lemma FreedOne(s: Pool, t: nat, i: nat, list: seq<Entry>)
    requires t in s.pushes && i < |s.pushes[t]| && Freeing(s, t, i, list)
    ensures Ordered(list) && TaskOk(list, t, s.pushes[t][i..])
    ensures Find(list, s.pushes[t][i]) < |list| ==>
      Freeing(s, t, i + 1, Without(list, Find(list, s.pushes[t][i])))
  {
    hide Ordered, TaskOk, CountTask, RemoveTask, Find;
    var ids := s.pushes[t];
    assert ids[i..][0] == ids[i] && ids[i..][1..] == ids[i + 1..];
    if Find(list, ids[i]) < |list| { WithoutOne(list, t, ids[i..]); }
  }

  lemma AllFreed(s: Pool, t: nat, list: seq<Entry>)
    requires t in s.pushes && Freeing(s, t, |s.pushes[t]|, list)
    ensures list == RemoveTask(s.list, t)
  {
    hide Ordered, TaskOk;
    NoEntries(list, t);
  }

  lemma OwnPushes(s: Pool, t: nat)
    requires PushesOk(s.list, s.pushes) && t in s.pushes
    ensures TaskOk(s.list, t, s.pushes[t]) && CountTask(s.list, t) == |s.pushes[t]|
  {
  }

  lemma {:induction false} RemoveWithout(list: seq<Entry>, k: nat, t: nat)
    requires k < |list| && list[k].task == t
    ensures RemoveTask(Without(list, k), t) == RemoveTask(list, t)
    ensures CountTask(Without(list, k), t) == CountTask(list, t) - 1
  {
    if k == 0 {
      assert Without(list, 0) == list[1..];
    } else {
      assert Without(list, k)[0] == list[0] && Without(list, k)[1..] == Without(list[1..], k - 1);
      RemoveWithout(list[1..], k - 1, t);
    }
  }

  /** Taking the newest push of t out of the list leaves its older ones. */
  lemma WithoutOne(list: seq<Entry>, t: nat, ids: seq<nat>)
    requires Ordered(list) && ids != [] && TaskOk(list, t, ids) && Find(list, ids[0]) < |list|
    ensures var out := Without(list, Find(list, ids[0]));
      && Ordered(out) && TaskOk(out, t, ids[1..]) && CountTask(out, t) == CountTask(list, t) - 1
      && RemoveTask(out, t) == RemoveTask(list, t)
  {
    var k := Find(list, ids[0]);
    var out := Without(list, k);
    assert Has(list, ids[0], t);
    RemoveWithout(list, k, t);
    hide RemoveTask, CountTask, Has, Ordered;
    OrderedWithout(list, k);
    forall i | 0 <= i < |ids[1..]| ensures Has(out, ids[1..][i], t) {
      assert Has(list, ids[i + 1], t) && ids[0] > ids[i + 1];
      HasWithout(list, k, ids[i + 1], t);
    }
  }

  lemma OrderedWithout(list: seq<Entry>, k: nat)
    requires Ordered(list) && k < |list|
    ensures Ordered(Without(list, k))
  {
    var out := Without(list, k);
    forall i, j | 0 <= i < j < |out| ensures Before(out[i], out[j]) {
      assert Before(list[if i < k then i else i + 1], list[if j < k then j else j + 1]);
    }
  }

  lemma HasWithout(list: seq<Entry>, k: nat, id: nat, t: nat)
    requires Ordered(list) && k < |list| && Has(list, id, t) && id != list[k].id
    ensures Has(Without(list, k), id, t)
  {
    OrderedWithout(list, k);
    var j := Find(list, id);
    assert Without(list, k)[if j < k then j else j - 1] == list[j];
    FindMember(Without(list, k), list[j]);
  }

  lemma TakesHead(s: Pool, w: nat)
    requires Inv(s) && Enabled(s, Take(w))
    ensures Ordered(s.list) && FirstPending(s.list) == 0 < |s.list| && s.list[0].phase.Pending?
    ensures Apply(s, Take(w)).0.list == s.list[1..] + [s.list[0].(phase := Running(w), start := |s.executed|)]
  {
    TakeOrder(s, w);
  }

  /** What a worker does when it gets the mutex. */
  function Entering(s: Pool, w: nat): Action {
    if !s.isActive then Quit(w) else if FirstPending(s.list) == |s.list| then Sleep(w) else Take(w)
  }

  function Entered(s: Pool, w: nat): Pool
    requires w < |s.workers| && s.workers[w].Ready?
  {
    Apply(s, Entering(s, w)).0
  }

  lemma Enterable(s: Pool, w: nat)
    requires w < |s.workers| && s.workers[w].Ready?
    ensures Enabled(s, Entering(s, w)) && Disciplined(s, Entering(s, w))
    ensures forall a | Enabled(s, a) && (a == Take(w) || a == Sleep(w) || a == Quit(w)) :: a == Entering(s, w)
  {
  }
}
