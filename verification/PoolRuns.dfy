/**
 * What the pool guarantees over whole runs.
 */
module PoolRuns {
  import opened PoolModel
  import opened PoolInvariant

  /** A run of steps that the threads can take and the client may take, none of which loses work. */
  ghost predicate Legal(s: Pool, acts: seq<Action>)
    decreases |acts|
  {
    acts == [] || (
      && Enabled(s, acts[0]) && Disciplined(s, acts[0]) && !Drops(s, acts[0])
      && Legal(Apply(s, acts[0]).0, acts[1..]))
  }

  ghost function End(s: Pool, acts: seq<Action>): Pool
    requires Legal(s, acts)
    decreases |acts|
  {
    if acts == [] then s else End(Apply(s, acts[0]).0, acts[1..])
  }

  ghost function Replies(s: Pool, acts: seq<Action>): seq<Reply>
    requires Legal(s, acts)
    decreases |acts|
  {
    if acts == [] then [] else [Apply(s, acts[0]).1] + Replies(Apply(s, acts[0]).0, acts[1..])
  }

  lemma ThenReplies(s: Pool, a: Action, rest: seq<Action>)
    requires Enabled(s, a) && Disciplined(s, a) && !Drops(s, a) && Legal(Apply(s, a).0, rest)
    ensures Legal(s, [a] + rest) && Replies(s, [a] + rest) == [Apply(s, a).1] + Replies(Apply(s, a).0, rest)
  {
    hide Apply, Enabled, Disciplined, Drops;
    assert ([a] + rest)[1..] == rest;
  }

  /** A run by its first step. */
  lemma Then(s: Pool, a: Action, rest: seq<Action>)
    requires Enabled(s, a) && Disciplined(s, a) && !Drops(s, a) && Legal(Apply(s, a).0, rest)
    ensures Legal(s, [a] + rest) && End(s, [a] + rest) == End(Apply(s, a).0, rest)
  {
    assert ([a] + rest)[1..] == rest;
  }

  /** A run after a run. */
  lemma {:induction false} Concat(s: Pool, a: seq<Action>, b: seq<Action>)
    requires Legal(s, a) && Legal(End(s, a), b)
    ensures Legal(s, a + b) && End(s, a + b) == End(End(s, a), b)
    decreases |a|
  {
    hide Apply, Enabled, Disciplined, Drops;
    if a == [] {
      assert [] + b == b;
    } else {
      Concat(Apply(s, a[0]).0, a[1..], b);
      assert a + b == [a[0]] + (a[1..] + b);
      Then(s, a[0], a[1..] + b);
    }
  }

  lemma {:induction false} RunInv(s: Pool, acts: seq<Action>)
    requires Inv(s) && Legal(s, acts)
    ensures Inv(End(s, acts))
    decreases |acts|
  {
    hide Inv, Apply, Enabled, Disciplined, Drops;
    if acts != [] {
      StepInv(s, acts[0]);
      RunInv(Apply(s, acts[0]).0, acts[1..]);
    }
  }

  /** States that a pool created by thread_pool_new can reach. */
  ghost predicate Reachable(s: Pool) {
    exists n: int, acts :: NewPool(n).Some? && Legal(NewPool(n).value, acts) && s == End(NewPool(n).value, acts)
  }

  lemma ReachableInv(s: Pool)
    requires Reachable(s)
    ensures Inv(s)
  {
    var n: int, acts :| NewPool(n).Some? && Legal(NewPool(n).value, acts) && s == End(NewPool(n).value, acts);
    NewPoolInv(n);
    RunInv(NewPool(n).value, acts);
  }

  // ---------------------------------------------------------------- the list and the counters

  /**
   * The list is the pending entries, newest push first, and then the started ones in the order they were
   * started. p is the number of pending ones.
   */
  lemma ListShape(s: Pool) returns (p: nat)
    requires Reachable(s)
    ensures p == Count(s.list, IsPending) <= |s.list|
    ensures forall i | 0 <= i < |s.list| :: s.list[i].phase.Pending? <==> i < p
    ensures forall i, j | 0 <= i < j < p :: s.list[i].id > s.list[j].id
    ensures forall i, j | p <= i < j < |s.list| :: s.list[i].start < s.list[j].start
  {
    ReachableInv(s);
    p := PendingFirst(s.list);
    forall i, j | 0 <= i < j < |s.list| ensures Before(s.list[i], s.list[j]) {}
  }

  lemma {:induction false} PendingFirst(list: seq<Entry>) returns (p: nat)
    requires Ordered(list)
    ensures p == Count(list, IsPending) <= |list|
    ensures forall i | 0 <= i < |list| :: list[i].phase.Pending? <==> i < p
  {
    p := 0;
    if list != [] {
      var tail := list[1..];
      forall i, j | 0 <= i < j < |tail| ensures Before(tail[i], tail[j]) { assert Before(list[i + 1], list[j + 1]); }
      p := PendingFirst(tail);
      if list[0].phase.Pending? { p := p + 1; }
      forall i | 0 <= i < |list| ensures list[i].phase.Pending? <==> i < p {
        if i > 0 { assert Before(list[0], list[i]) && tail[i - 1] == list[i]; }
      }
    }
  }

  /** A worker always takes the newest entry not yet started, and that entry is the head of the list. */
  lemma TakesNewest(s: Pool, w: nat)
    requires Reachable(s) && Enabled(s, Take(w))
    ensures var k := FirstPending(s.list);
      k == 0 && forall i | 0 <= i < |s.list| && s.list[i].phase.Pending? :: s.list[i].id <= s.list[0].id
  {
    ReachableInv(s);
    GetTaskIsHead(s.list);
    forall i | 0 < i < |s.list| && s.list[i].phase.Pending? ensures s.list[i].id <= s.list[0].id {
      assert Before(s.list[0], s.list[i]);
    }
  }

  /** The counters count: busy workers, live workers, and entries both in the list and per task. */
  lemma CountersExact(s: Pool)
    requires Reachable(s)
    ensures s.activeCnt == Count(s.workers, IsWorking) == Count(s.list, IsRunning)
    ensures s.threadsCnt == Count(s.workers, IsLive) <= s.maxThreads <= TPOOL_MAX_THREADS
    ensures s.tasksCnt == |s.list| <= TPOOL_MAX_TASKS
    ensures forall t | t in s.pushes :: |s.pushes[t]| == CountTask(s.list, t)
  {
    ReachableInv(s);
    RunningBijection(s.list, s.workers);
  }

  predicate IsRunning(e: Entry) { e.phase.Running? }

  predicate IsPending(e: Entry) { e.phase.Pending? }

  predicate IsReady(w: Worker) { w.Ready? }

  ghost function RunningIds(list: seq<Entry>): set<nat> {
    set i | 0 <= i < |list| && list[i].phase.Running? :: list[i].id
  }

  ghost function WorkingIds(ws: seq<Worker>): set<nat> {
    set w | 0 <= w < |ws| && ws[w].Working? :: ws[w].entry
  }

  lemma {:induction false} RunningSize(list: seq<Entry>)
    requires Ordered(list)
    ensures |RunningIds(list)| == Count(list, IsRunning)
  {
    if list != [] {
      var tail := list[1..];
      forall i, j | 0 <= i < j < |tail| ensures Before(tail[i], tail[j]) { assert Before(list[i + 1], list[j + 1]); }
      RunningSize(tail);
      var head := if list[0].phase.Running? then {list[0].id} else {};
      forall x ensures x in RunningIds(list) <==> x in head + RunningIds(tail) {
        if x in RunningIds(tail) {
          var i :| 0 <= i < |tail| && tail[i].phase.Running? && tail[i].id == x;
          assert list[i + 1] == tail[i];
        }
        if x in RunningIds(list) {
          var i :| 0 <= i < |list| && list[i].phase.Running? && list[i].id == x;
          if i > 0 { assert tail[i - 1] == list[i]; }
        }
      }
      assert RunningIds(list) == head + RunningIds(tail);
      forall i | 0 <= i < |tail| ensures tail[i].id != list[0].id { assert Before(list[0], list[i + 1]); }
      assert head !! RunningIds(tail);
    }
  }

  lemma {:induction false} WorkingSize(ws: seq<Worker>)
    requires forall v, w | 0 <= v < w < |ws| && ws[v].Working? && ws[w].Working? :: ws[v].entry != ws[w].entry
    ensures |WorkingIds(ws)| == Count(ws, IsWorking)
  {
    if ws != [] {
      var tail := ws[1..];
      assert forall i | 0 <= i < |tail| :: tail[i] == ws[i + 1];
      WorkingSize(tail);
      var head := if ws[0].Working? then {ws[0].entry} else {};
      forall x ensures x in WorkingIds(ws) <==> x in head + WorkingIds(tail) {
        if x in WorkingIds(ws) {
          var i :| 0 <= i < |ws| && ws[i].Working? && ws[i].entry == x;
          if i > 0 { assert tail[i - 1] == ws[i]; }
        }
      }
      assert WorkingIds(ws) == head + WorkingIds(tail);
      assert head !! WorkingIds(tail);
    }
  }

  lemma RunningBijection(list: seq<Entry>, ws: seq<Worker>)
    requires Ordered(list) && WorkersOk(list, ws)
    ensures RunningIds(list) == WorkingIds(ws)
    ensures Count(ws, IsWorking) == Count(list, IsRunning)
  {
    RunningSize(list);
    forall v, w | 0 <= v < w < |ws| && ws[v].Working? && ws[w].Working? ensures ws[v].entry != ws[w].entry {
      assert list[Find(list, ws[v].entry)].phase == Running(v);
    }
    WorkingSize(ws);
    forall x ensures x in RunningIds(list) <==> x in WorkingIds(ws) {
      if x in RunningIds(list) {
        var i :| 0 <= i < |list| && list[i].phase.Running? && list[i].id == x;
        assert ws[list[i].phase.worker] == Working(x);
      }
    }
  }

  /** A push is pending, or was started exactly once; it leaves the list only after it has finished. */
  lemma RunsExactlyOnce(s: Pool, id: nat)
    requires Reachable(s) && id < s.nextId
    ensures var k := Find(s.list, id);
      && (id in s.executed <==> !(k < |s.list| && s.list[k].phase.Pending?))
      && (forall i, j | 0 <= i < j < |s.executed| :: s.executed[i] == id ==> s.executed[j] != id)
      && (id in s.finished <==> k == |s.list| || s.list[k].phase.Finished?)
  {
    ReachableInv(s);
    var k := Find(s.list, id);
    if k < |s.list| { assert EntryOk(s.list[k], s.nextId, s.executed, s.finished); }
  }

  // ---------------------------------------------------------------- no lost wakeup

  /**
   * Nobody sleeps on work_cond over a pending entry, somebody is there to run it, and no joiner sleeps on a finished
   * one.
   */
  lemma NoLostWakeup(s: Pool)
    requires Reachable(s)
    ensures SomePending(s.list) ==> s.threadsCnt > 0 && forall w | 0 <= w < |s.workers| :: !s.workers[w].Waiting?
    ensures forall i | 0 <= i < |s.list| && s.list[i].phase.Finished? :: !s.list[i].waiter.Blocked?
  {
    ReachableInv(s);
    forall i | 0 <= i < |s.list| && s.list[i].phase.Finished? ensures !s.list[i].waiter.Blocked? {
      assert JoinOk(s.list[i]);
    }
  }

  // ---------------------------------------------------------------- draining

  predicate ByWorker(a: Action) { a.Take? || a.Sleep? || a.Quit? || a.Finish? }

  /** What worker steps use up. */
  ghost function Work(s: Pool): nat {
    3 * Count(s.list, IsPending) + 2 * Count(s.workers, IsWorking) + Count(s.workers, IsReady)
  }

  lemma {:induction false} RemovePendingCount(list: seq<Entry>, t: nat)
    ensures Count(RemoveTask(list, t), IsPending) <= Count(list, IsPending)
  {
    if list != [] {
      RemovePendingCount(list[1..], t);
      CountConcat([list[0]], RemoveTask(list[1..], t), IsPending);
    }
  }

  lemma TakeUsesUp(s: Pool, w: nat)
    requires Inv(s) && Enabled(s, Take(w))
    ensures var t := Apply(s, Take(w)).0;
      Work(t) < Work(s) && t.isActive == s.isActive && t.nextId == s.nextId
  {
    hide EntriesOk, HistoryOk, WorkersOk, PushesOk, ClientsOk, Count, CountsOk, SleepOk;
    TakeOrder(s, w);
    var tail, last := s.list[1..], Apply(s, Take(w)).0.list[|s.list| - 1];
    assert s.list == [s.list[0]] + tail;
    CountConcat([s.list[0]], tail, IsPending);
    CountConcat(tail, [last], IsPending);
    CountOne(s.list[0], IsPending);
    CountOne(last, IsPending);
    CountUpdate(s.workers, w, Working(s.list[0].id), IsWorking);
    CountUpdate(s.workers, w, Working(s.list[0].id), IsReady);
  }

  lemma FinishUsesUp(s: Pool, w: nat, r: int)
    requires Inv(s) && Enabled(s, Finish(w, r))
    ensures var t := Apply(s, Finish(w, r)).0;
      Work(t) < Work(s) && t.isActive == s.isActive && t.nextId == s.nextId
  {
    RunningEntry(s, w);
    hide Inv, Count, Find;
    var t := Finished1(s, w, r);
    CountSame(s.list, t.list, IsPending);
    CountUpdate(s.workers, w, Ready, IsWorking);
    CountUpdate(s.workers, w, Ready, IsReady);
    RemovePendingCount(t.list, t.list[Find(s.list, s.workers[w].entry)].task);
  }

  lemma WorkerStepUsesUp(s: Pool, a: Action)
    requires Inv(s) && Enabled(s, a) && ByWorker(a)
    ensures var t := Apply(s, a).0;
      Work(t) < Work(s) && t.isActive == s.isActive && t.nextId == s.nextId
  {
    hide Inv, Count;
    match a
    case Take(w) => TakeUsesUp(s, w);
    case Finish(w, r) => FinishUsesUp(s, w, r);
    case Sleep(w) =>
      CountUpdate(s.workers, w, Waiting, IsWorking);
      CountUpdate(s.workers, w, Waiting, IsReady);
    case Quit(w) =>
      CountUpdate(s.workers, w, Exited, IsWorking);
      CountUpdate(s.workers, w, Exited, IsReady);
    case _ =>
  }

  /** With no client steps, only so many worker steps can follow. */
  lemma {:induction false} DrainIsFinite(s: Pool, acts: seq<Action>)
    requires Inv(s) && Legal(s, acts) && forall i | 0 <= i < |acts| :: ByWorker(acts[i])
    ensures |acts| + Work(End(s, acts)) <= Work(s)
    ensures End(s, acts).isActive == s.isActive && End(s, acts).nextId == s.nextId
    decreases |acts|
  {
    hide Inv, Apply, Enabled, Disciplined, Work;
    if acts != [] {
      WorkerStepUsesUp(s, acts[0]);
      StepInv(s, acts[0]);
      DrainIsFinite(Apply(s, acts[0]).0, acts[1..]);
    }
  }

  /** The worker of a running entry can finish it. */
  lemma RunningStep(s: Pool, i: nat) returns (a: Action)
    requires Inv(s) && i < |s.list| && s.list[i].phase.Running?
    ensures ByWorker(a) && Enabled(s, a)
  {
    hide EntriesOk, HistoryOk, PushesOk, ClientsOk, CountsOk, SleepOk;
    FindAt(s.list, i);
    a := Finish(s.list[i].phase.worker, 0);
  }

  /** Over a pending entry nobody waits and somebody lives: that worker takes it or finishes its own. */
  lemma PendingStep(s: Pool, i: nat) returns (a: Action)
    requires Inv(s) && s.isActive && i < |s.list| && s.list[i].phase.Pending?
    ensures ByWorker(a) && Enabled(s, a)
  {
    hide EntriesOk, HistoryOk, PushesOk, ClientsOk, Ordered;
    CountZero(s.workers, IsLive);
    var w :| 0 <= w < |s.workers| && IsLive(s.workers[w]);
    a := if s.workers[w].Ready? then Take(w) else Finish(w, 0);
  }

  /** While the pool is active and an entry is pending or running, some worker has a step. */
  lemma WorkerHasStep(s: Pool) returns (a: Action)
    requires Inv(s) && s.isActive
    requires exists i :: 0 <= i < |s.list| && !s.list[i].phase.Finished?
    ensures ByWorker(a) && Enabled(s, a)
  {
    hide Inv, Enabled;
    var i :| 0 <= i < |s.list| && !s.list[i].phase.Finished?;
    if s.list[i].phase.Running? { a := RunningStep(s, i); } else { a := PendingStep(s, i); }
  }

  /** No worker can move. */
  ghost predicate Quiescent(s: Pool) {
    forall a | ByWorker(a) :: !Enabled(s, a)
  }

  /** However the workers are scheduled, when none can move any more every push ever made has run to its end. */
  lemma Drains(s: Pool, acts: seq<Action>)
    requires Reachable(s) && s.isActive
    requires Legal(s, acts) && forall i | 0 <= i < |acts| :: ByWorker(acts[i])
    requires Quiescent(End(s, acts))
    ensures var t := End(s, acts);
      && (forall i | 0 <= i < |t.list| :: t.list[i].phase.Finished? && !t.list[i].waiter.Blocked?)
      && (forall id: nat | id < s.nextId :: id in t.finished)
  {
    ReachableInv(s);
    RunInv(s, acts);
    DrainIsFinite(s, acts);
    var t := End(s, acts);
    forall i | 0 <= i < |t.list| ensures t.list[i].phase.Finished? && !t.list[i].waiter.Blocked? {
      if !t.list[i].phase.Finished? {
        var a := WorkerHasStep(t);
        assert false;
      }
      assert JoinOk(t.list[i]);
    }
    forall id: nat | id < s.nextId ensures id in t.finished {
      var k := Find(t.list, id);
      if k < |t.list| { assert EntryOk(t.list[k], t.nextId, t.executed, t.finished); }
    }
  }
}
