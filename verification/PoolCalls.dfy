/**
 * What every call of the pool does, as its caller sees it, and what that comes to over whole runs: which task can be
 * deleted is told from the joins and detaches there were.
 */
module PoolCalls {
  import opened PoolModel
  import opened PoolInvariant
  import opened PoolRuns
  import opened PoolDetach
  import opened PoolDrops

  /** Every entry but number k is as it was. */
  predicate OnlyEntry(a: seq<Entry>, b: seq<Entry>, k: nat) {
    |a| == |b| && forall i | 0 <= i < |a| && i != k :: b[i] == a[i]
  }

  // ---------------------------------------------------------------- pushing

  /** A push is accepted below the limit, becomes the head of the list, and lets no worker sleep. */
  lemma PushAnswers(s: Pool, t: nat)
    requires Inv(s) && Enabled(s, Push(t))
    ensures var (u, reply) := Apply(s, Push(t));
      if |s.list| >= TPOOL_MAX_TASKS then (u, reply) == (s, Fails(TooManyTasks)) else
        && reply == Ok && |u.list| == |s.list| + 1 && u.list[1..] == s.list
        && u.list[0] == Entry(s.nextId, t, Pending, 0, false, false, Nobody)
        && u.tasksCnt == s.tasksCnt + 1 && u.nextId == s.nextId + 1
        && u.pushes.Keys == s.pushes.Keys && u.pushes[t] == [s.nextId] + s.pushes[t]
        && (forall x | x in s.pushes && x != t :: u.pushes[x] == s.pushes[x])
        && forall w | 0 <= w < |u.workers| :: !u.workers[w].Waiting?
  {
    hide WorkersOk, HistoryOk, EntriesOk, PushesOk, ClientsOk, SleepOk, Ordered;
  }

  /**
   * A thread is started exactly if every live worker is busy and there is room for one more; so after an accepted push
   * some live worker is free, or there are as many threads as there may be.
   */
  lemma PushStaffs(s: Pool, t: nat)
    requires Inv(s) && Enabled(s, Push(t)) && Apply(s, Push(t)).1 == Ok
    ensures var u := Apply(s, Push(t)).0;
      && (|u.workers| == |s.workers| + 1 && u.workers[|s.workers|] == Ready && u.threadsCnt == s.threadsCnt + 1
          <==> AllBusy(s.workers) && Count(s.workers, IsLive) < s.maxThreads)
      && (u.threadsCnt == s.threadsCnt && |u.workers| == |s.workers|
          <==> !AllBusy(s.workers) || Count(s.workers, IsLive) == s.maxThreads)
      && (!AllBusy(u.workers) || Count(u.workers, IsLive) == s.maxThreads)
      && forall w | 0 <= w < |s.workers| :: u.workers[w] == if s.workers[w].Waiting? then Ready else s.workers[w]
  {
    hide WorkersOk, HistoryOk, EntriesOk, PushesOk, ClientsOk, SleepOk, Ordered, Broadcast, Count, FirstPending;
    var u := Apply(s, Push(t)).0;
    BusyCounts(s.workers);
    var ws := if AllBusy(s.workers) && s.threadsCnt < s.maxThreads then s.workers + [Ready] else s.workers;
    BroadcastCounts(ws);
    CountConcat(s.workers, [Ready], IsLive);
    CountOne(Ready, IsLive);
    if AllBusy(s.workers) && s.threadsCnt < s.maxThreads {
      assert u.workers[|s.workers|] == Ready;
    } else if !AllBusy(s.workers) {
      var w :| 0 <= w < |s.workers| && !s.workers[w].Working? && !s.workers[w].Exited?;
      assert !u.workers[w].Working? && !u.workers[w].Exited?;
    }
  }

  /** Every worker that has not left runs a push. */
  predicate AllBusy(ws: seq<Worker>) { forall w | 0 <= w < |ws| :: ws[w].Working? || ws[w].Exited? }

  lemma {:induction false} BusyCounts(ws: seq<Worker>)
    ensures Count(ws, IsWorking) == Count(ws, IsLive) <==> AllBusy(ws)
    ensures Count(ws, IsWorking) <= Count(ws, IsLive)
  {
    if ws != [] {
      BusyCounts(ws[1..]);
      assert forall w | 0 <= w < |ws| - 1 :: ws[1..][w] == ws[w + 1];
      assert forall w | 0 < w < |ws| :: ws[w] == ws[1..][w - 1];
    }
  }

  // ---------------------------------------------------------------- joining

  /** A join answers at once or blocks, and leaves its mark on the latest push in both cases. */
  lemma JoinAnswers(s: Pool, t: nat, timeout: Timeout)
    requires Inv(s) && Enabled(s, Join(t, timeout))
    ensures var (u, reply) := Apply(s, Join(t, timeout));
      if s.pushes[t] == [] then (u, reply) == (s, Fails(TaskNotPushed))
      else if timeout.NonPositive? then (u, reply) == (s, Fails(TimedOut))
      else
        && u == s.(list := u.list)
        && exists k ::
             && 0 <= k < |s.list| && s.list[k].id == s.pushes[t][0] && OnlyEntry(s.list, u.list, k)
             && SameRun(u.list[k], s.list[k]) && u.list[k].joined && u.list[k].detached == s.list[k].detached
             && if s.list[k].phase.Finished? then
                  reply == Value(s.list[k].phase.result) && u.list[k].waiter == s.list[k].waiter
                else
                  reply == Blocks && u.list[k].waiter == Blocked(timeout.Positive?)
  {
    if Pushed(s, t) {
      LatestEntry(s, t);
      hide Inv;
      var k := Latest(s, t);
      assert s.list[k].id == s.pushes[t][0];
      assert timeout.NonPositive? || OnlyEntry(s.list, Apply(s, Join(t, timeout)).0.list, k);
    }
  }

  /** A join that returns or gives up leaves the push as it is, with nobody waiting for it. */
  lemma JoinEnds(s: Pool, a: Action)
    requires Inv(s) && Enabled(s, a) && (a.JoinReturn? || a.JoinTimeOut?)
    ensures var (u, reply) := Apply(s, a);
      && u == s.(list := u.list)
      && exists k ::
           && 0 <= k < |s.list| && s.list[k].id == a.id && OnlyEntry(s.list, u.list, k)
           && u.list[k] == s.list[k].(waiter := Nobody)
           && (a.JoinTimeOut? ==> reply == Fails(TimedOut) && s.list[k].waiter.timed)
           && (a.JoinReturn? ==> s.list[k].phase.Finished? && reply == Value(s.list[k].phase.result))
  {
    hide Inv;
    var k := Find(s.list, a.id);
    assert s.list[k].id == a.id && OnlyEntry(s.list, Apply(s, a).0.list, k);
  }

  // ---------------------------------------------------------------- deleting

  /** Deleting a task takes it out with all its pushes, or changes nothing; a task that was never pushed just goes. */
  lemma DeleteAnswers(s: Pool, t: nat)
    requires Inv(s) && Enabled(s, Delete(t))
    ensures var (u, reply) := Apply(s, Delete(t));
      && (reply == Ok || (reply == Fails(TaskInPool) && u == s))
      && (reply == Ok <==> forall e | e in s.list && e.task == t :: e.joined || (e.detached && e.phase.Finished?))
      && (reply == Ok ==>
            && u.pushes == s.pushes - {t} && u == s.(list := u.list, pushes := u.pushes, tasksCnt := |u.list|)
            && (forall e :: e in u.list <==> e in s.list && e.task != t)
            && Ordered(u.list))
  {
    Orders(s);
    ListCounted(s, t);
    RemoveCount(s.list, t, t);
    RemoveOrdered(s.list, t);
    hide Inv, Ordered, CountTask;
    if s.pushes[t] == [] { NoEntries(s.list, t); }
  }

  lemma ListCounted(s: Pool, t: nat)
    requires Inv(s) && t in s.pushes
    ensures s.tasksCnt == |s.list| && |s.pushes[t]| == CountTask(s.list, t)
  {
    Accounted(s, t);
  }

  /** The task is gone from the state, its pushes with it, and nothing else. */
  ghost predicate Gone(before: seq<Entry>, pushes: map<nat, seq<nat>>, u: Pool, t: nat) {
    u.pushes == pushes - {t} && forall e :: e in u.list <==> e in before && e.task != t
  }

  /** A detach leaves its mark on the latest push. If that has finished, the task goes, or stays with the mark. */
  lemma DetachAnswers(s: Pool, t: nat)
    requires Inv(s) && Enabled(s, Detach(t))
    ensures var (u, reply) := Apply(s, Detach(t));
      if s.pushes[t] == [] then (u, reply) == (s, Fails(TaskNotPushed)) else
        && reply == Ok && u == s.(list := u.list, pushes := u.pushes, tasksCnt := u.tasksCnt)
        && exists k ::
             && 0 <= k < |s.list| && s.list[k].id == s.pushes[t][0]
             && var marked := s.list[k := s.list[k].(detached := true)];
                if s.list[k].phase.Finished? && (forall e | e in marked && e.task == t :: Loose(e))
                then Gone(marked, s.pushes, u, t)
                else u.list == marked && u.pushes == s.pushes && u.tasksCnt == s.tasksCnt
  {
    if Pushed(s, t) {
      LatestEntry(s, t);
      hide Inv;
      var k := Latest(s, t);
      assert s.list[k].id == s.pushes[t][0];
    }
  }

  /** The push that returns r is finished with that result and wakes who waits for it; if detached, its task may go. */
  lemma FinishAnswers(s: Pool, w: nat, r: int)
    requires Inv(s) && Enabled(s, Finish(w, r))
    ensures var (u, reply) := Apply(s, Finish(w, r));
      && reply == Ok && u.workers == s.workers[w := Ready] && u.activeCnt == s.activeCnt - 1
      && u.finished == s.finished + {s.workers[w].entry} && u.executed == s.executed && u.nextId == s.nextId
      && exists k ::
           && 0 <= k < |s.list| && s.list[k].id == s.workers[w].entry
           && var (e, woken) := (s.list[k], if s.list[k].waiter.Nobody? then Nobody else Woken(s.list[k].waiter.timed));
              var done := s.list[k := e.(phase := Finished(r), waiter := woken)];
              if e.detached && (forall x | x in done && x.task == e.task :: Loose(x))
              then Gone(done, s.pushes, u, e.task)
              else u.list == done && u.pushes == s.pushes && u.tasksCnt == s.tasksCnt
  {
    RunningEntry(s, w);
    var k := Find(s.list, s.workers[w].entry);
    RunningTask(s, k);
    hide Inv;
    assert s.list[k].id == s.workers[w].entry;
  }

  /** thread_pool_delete is refused while there are tasks; otherwise it wakes every worker and waits for the last. */
  lemma PoolDeleteAnswers(s: Pool)
    requires Inv(s) && Enabled(s, PoolDelete)
    ensures var (u, reply) := Apply(s, PoolDelete);
      if s.list != [] then (u, reply) == (s, Fails(HasTasks)) else
        && reply == Ok && !u.isActive && u == s.(isActive := false, workers := u.workers, deleter := u.deleter)
        && |u.workers| == |s.workers|
        && (forall w | 0 <= w < |s.workers| :: u.workers[w] == if s.workers[w].Waiting? then Ready else s.workers[w])
        && u.deleter == if forall w | 0 <= w < |s.workers| :: s.workers[w].Exited? then Returned else Sleeping
  {
    hide HistoryOk, EntriesOk, PushesOk, ClientsOk, SleepOk, Ordered;
    NoneLive(s.workers);
  }

  lemma {:induction false} NoneLive(ws: seq<Worker>)
    ensures Count(ws, IsLive) == 0 <==> forall w | 0 <= w < |ws| :: ws[w].Exited?
  {
    if ws != [] {
      NoneLive(ws[1..]);
      assert forall w | 0 < w < |ws| :: ws[w] == ws[1..][w - 1];
      assert forall w | 0 <= w < |ws| - 1 :: ws[1..][w] == ws[w + 1];
    }
  }

  // ---------------------------------------------------------------- over runs

  /** The push that a join or a detach of the run was about: the latest of its task at that moment. */
  function Marks(s: Pool, a: Action): set<nat> {
    if ((a.Join? && !a.timeout.NonPositive?) || a.Detach?) && Pushed(s, a.t) then {s.pushes[a.t][0]} else {}
  }

  /** The pushes that were the latest of their task at some join of it that did not time out at once. */
  ghost function JoinedIn(s: Pool, acts: seq<Action>): set<nat>
    requires Legal(s, acts)
    decreases |acts|
  {
    if acts == [] then {} else
    (if acts[0].Join? then Marks(s, acts[0]) else {}) + JoinedIn(Apply(s, acts[0]).0, acts[1..])
  }

  /** The pushes that were the latest of their task at a detach of it. */
  ghost function DetachedIn(s: Pool, acts: seq<Action>): set<nat>
    requires Legal(s, acts)
    decreases |acts|
  {
    if acts == [] then {} else
    (if acts[0].Detach? then Marks(s, acts[0]) else {}) + DetachedIn(Apply(s, acts[0]).0, acts[1..])
  }

  /** Each entry carries the marks of the run so far. */
  ghost predicate Marked(s: Pool, joined: set<nat>, detached: set<nat>) {
    && (forall e | e in s.list :: (e.joined <==> e.id in joined) && (e.detached <==> e.id in detached))
    && forall id | id in joined || id in detached :: id < s.nextId
  }

  lemma MarkedStep(s: Pool, a: Action, joined: set<nat>, detached: set<nat>)
    requires Inv(s) && Enabled(s, a) && Marked(s, joined, detached)
    ensures Marked(Apply(s, a).0, joined + (if a.Join? then Marks(s, a) else {}),
                   detached + if a.Detach? then Marks(s, a) else {})
  {
    MarksAreOld(s, a);
    NextId(s, a);
    hide Inv, Apply, Enabled;
    forall e | e in Apply(s, a).0.list
      ensures e.joined <==> e.id in joined + if a.Join? then Marks(s, a) else {}
      ensures e.detached <==> e.id in detached + if a.Detach? then Marks(s, a) else {}
    {
      if e.id < s.nextId {
        var c := JoinOrigin(s, a, e);
        var d := DetachOrigin(s, a, e);
        SameEntry(s, c, d);
        MarkedExactly(s, a, e, d);
      } else {
        NewEntry(s, a, e);
      }
    }
  }

  /** Only entries of the list are joined or detached. */
  lemma MarksAreOld(s: Pool, a: Action)
    requires Inv(s) && Enabled(s, a)
    ensures forall id | id in Marks(s, a) :: id < s.nextId
  {
    if Marks(s, a) != {} {
      LatestEntry(s, a.t);
      assert EntryOk(s.list[Latest(s, a.t)], s.nextId, s.executed, s.finished);
    }
  }

  lemma NextId(s: Pool, a: Action)
    requires Enabled(s, a)
    ensures s.nextId <= Apply(s, a).0.nextId
  {
  }

  lemma SameEntry(s: Pool, c: Entry, d: Entry)
    requires Inv(s) && c in s.list && d in s.list && c.id == d.id
    ensures c == d
  {
    FindMember(s.list, c);
    FindMember(s.list, d);
  }

  /** The step marks e exactly if it is a join or detach with e as the latest push. */
  lemma MarkedExactly(s: Pool, a: Action, e: Entry, d: Entry)
    requires Inv(s) && Enabled(s, a) && d in s.list && d.id == e.id && d.task == e.task
    ensures a.Join? ==> (JoinedBy(s, a, e) <==> e.id in Marks(s, a))
    ensures a.Detach? ==> (DetachedBy(s, a, e) <==> e.id in Marks(s, a))
  {
    if (a.Join? || a.Detach?) && Pushed(s, a.t) {
      LatestEntry(s, a.t);
      var l := s.list[Latest(s, a.t)];
      if e.id == l.id { SameEntry(s, l, d); }
    }
  }

  lemma NewEntry(s: Pool, a: Action, e: Entry)
    requires Inv(s) && Enabled(s, a) && e in Apply(s, a).0.list && e.id >= s.nextId
    ensures a.Push? && !e.joined && !e.detached && e.id == s.nextId
  {
    if e.joined {
      var d := JoinOrigin(s, a, e);
      OldId(s, d);
    } else if e.detached {
      var d := DetachOrigin(s, a, e);
      OldId(s, d);
    } else {
      hide Ordered, ClientsOk, HistoryOk, PushesOk, WorkersOk, CountsOk, SleepOk;
      IdsStay(s, a, e);
    }
  }

  lemma OldId(s: Pool, d: Entry)
    requires Inv(s) && d in s.list
    ensures d.id < s.nextId
  {
    var i :| 0 <= i < |s.list| && s.list[i] == d;
    assert EntryOk(s.list[i], s.nextId, s.executed, s.finished);
  }

  lemma IdsStay(s: Pool, a: Action, e: Entry)
    requires Inv(s) && Enabled(s, a) && e in Apply(s, a).0.list
    ensures (a.Push? && e.id == s.nextId) || e.id < s.nextId
  {
    var d: Entry;
    if a.Finish? {
      hide Inv;
      d := FinishedFrom(s, a.w, a.r, e);
    } else if a.Take? {
      hide HistoryOk, PushesOk, ClientsOk, CountsOk, SleepOk, EntriesOk, WorkersOk;
      TakeOrder(s, a.w);
      d := if e in s.list[1..] then e else s.list[0];
    } else {
      hide Inv;
      d := OldEntry(s, a, e);
    }
    if d in s.list { OldId(s, d); }
  }

  lemma OldEntry(s: Pool, a: Action, e: Entry) returns (d: Entry)
    requires Enabled(s, a) && e in Apply(s, a).0.list && !a.Take? && !a.Finish?
    ensures d.id == e.id && (d in s.list || (a.Push? && e.id == s.nextId))
  {
    d := e;
    if a.Detach? && Pushed(s, a.t) {
      var k := Latest(s, a.t);
      var list := s.list[k := s.list[k].(detached := true)];
      var i :| 0 <= i < |list| && list[i] == e;
      d := s.list[i];
    } else if a.Join? || a.JoinReturn? || a.JoinTimeOut? {
      var i :| 0 <= i < |s.list| && Apply(s, a).0.list[i] == e;
      d := s.list[i];
    }
  }

  lemma {:induction false} MarkedRun(s: Pool, acts: seq<Action>, joined: set<nat>, detached: set<nat>)
    requires Inv(s) && Legal(s, acts) && Marked(s, joined, detached)
    ensures Marked(End(s, acts), joined + JoinedIn(s, acts), detached + DetachedIn(s, acts))
    decreases |acts|
  {
    hide Inv, Apply, Enabled, Disciplined, Drops, Marked, Marks;
    if acts == [] {
      assert joined + {} == joined && detached + {} == detached;
    } else {
      var (a, u) := (acts[0], Apply(s, acts[0]).0);
      var j := joined + if a.Join? then Marks(s, a) else {};
      var d := detached + if a.Detach? then Marks(s, a) else {};
      MarkedStep(s, a, joined, detached);
      StepInv(s, a);
      MarkedRun(u, acts[1..], j, d);
      assert j + JoinedIn(u, acts[1..]) == joined + JoinedIn(s, acts);
      assert d + DetachedIn(u, acts[1..]) == detached + DetachedIn(s, acts);
    }
  }

  /** In any run, an entry is joined exactly if it was the latest push at some join, and detached at some detach. */
  lemma MarksExact(n: int, acts: seq<Action>)
    requires NewPool(n).Some? && Legal(NewPool(n).value, acts)
    ensures Marked(End(NewPool(n).value, acts), JoinedIn(NewPool(n).value, acts), DetachedIn(NewPool(n).value, acts))
  {
    NewPoolInv(n);
    MarkedRun(NewPool(n).value, acts, {}, {});
    assert {} + JoinedIn(NewPool(n).value, acts) == JoinedIn(NewPool(n).value, acts);
    assert {} + DetachedIn(NewPool(n).value, acts) == DetachedIn(NewPool(n).value, acts);
  }

  /**
   * A pushed task can be deleted exactly if each of its pushes was the latest one at some join that did not time out at
   * once, or has been detached and has finished.
   */
  lemma DeletedWhenJoined(n: int, acts: seq<Action>, t: nat)
    requires NewPool(n).Some? && Legal(NewPool(n).value, acts)
    requires Pushed(End(NewPool(n).value, acts), t)
    ensures var (s0, s) := (NewPool(n).value, End(NewPool(n).value, acts));
      Apply(s, Delete(t)).1 == Ok <==>
        forall id | id in s.pushes[t] :: id in JoinedIn(s0, acts) || (id in DetachedIn(s0, acts) && id in s.finished)
  {
    var (s0, s) := (NewPool(n).value, End(NewPool(n).value, acts));
    NewPoolInv(n);
    RunInv(s0, acts);
    MarksExact(n, acts);
    DeleteAnswers(s, t);
    hide Inv, Apply, Legal, End, JoinedIn, DetachedIn;
    forall id | id in s.pushes[t] ensures exists e :: e in s.list && e.task == t && e.id == id {
      EntryOfPush(s, t, id);
    }
    forall e | e in s.list && e.task == t ensures e.id in s.pushes[t] && (e.phase.Finished? <==> e.id in s.finished) {
      PushOfEntry(s, e);
    }
  }

  lemma EntryOfPush(s: Pool, t: nat, id: nat)
    requires Inv(s) && t in s.pushes && id in s.pushes[t]
    ensures exists e :: e in s.list && e.task == t && e.id == id
  {
    assert TaskOk(s.list, t, s.pushes[t]);
    var i :| 0 <= i < |s.pushes[t]| && s.pushes[t][i] == id;
    assert Has(s.list, s.pushes[t][i], t);
    assert s.list[Find(s.list, id)] in s.list;
  }

  lemma PushOfEntry(s: Pool, e: Entry)
    requires Inv(s) && e in s.list
    ensures e.task in s.pushes && e.id in s.pushes[e.task] && (e.phase.Finished? <==> e.id in s.finished)
  {
    var i :| 0 <= i < |s.list| && s.list[i] == e;
    assert EntryOk(s.list[i], s.nextId, s.executed, s.finished);
  }

  /** The push that a join was about stays joined as long as it is listed. */
  lemma StaysJoined(s: Pool, t: nat, timeout: Timeout, after: seq<Action>, e: Entry)
    requires Reachable(s) && Enabled(s, Join(t, timeout)) && Disciplined(s, Join(t, timeout))
    requires !timeout.NonPositive? && Pushed(s, t) && Legal(Apply(s, Join(t, timeout)).0, after)
    requires e in End(Apply(s, Join(t, timeout)).0, after).list && e.id == s.pushes[t][0]
    ensures e.joined
  {
    var n: int, acts :| NewPool(n).Some? && Legal(NewPool(n).value, acts) && s == End(NewPool(n).value, acts);
    NewPoolInv(n);
    RunInv(NewPool(n).value, acts);
    MarksExact(n, acts);
    var (j, d) := (JoinedIn(NewPool(n).value, acts), DetachedIn(NewPool(n).value, acts));
    hide Inv, Apply, Legal, End, JoinedIn, DetachedIn, Enabled, Disciplined;
    var a := Join(t, timeout);
    MarkedStep(s, a, j, d);
    StepInv(s, a);
    MarkedRun(Apply(s, a).0, after, j + Marks(s, a), d + {});
  }

  const WHOLE: seq<Action> := [NewTask(0), Push(0), Take(0), Finish(0, 1), Join(0, Forever), Delete(0), PoolDelete]

  /** The life of a task: it is pushed, runs, is joined and deleted; then the pool may go too. */
  lemma WholeLife()
    ensures Legal(NewPool(1).value, WHOLE)
    ensures Replies(NewPool(1).value, WHOLE) == [Ok, Ok, Ok, Ok, Value(1), Ok, Ok]
  {
    hide Apply, Enabled, Disciplined, Drops, Legal, Replies;
    AllSteps();
    assert WHOLE == [NewTask(0)] + ([Push(0)] + Later());
  }

  function Later(): seq<Action> {
    [Take(0)] + ([Finish(0, 1)] + ([Join(0, Forever)] + ([Delete(0)] + ([PoolDelete] + []))))
  }

  lemma AllSteps()
    ensures Legal(NewPool(1).value, [NewTask(0)] + ([Push(0)] + Later()))
    ensures Replies(NewPool(1).value, [NewTask(0)] + ([Push(0)] + Later())) == [Ok, Ok, Ok, Ok, Value(1), Ok, Ok]
  {
    FirstSteps();
    MiddleSteps();
    hide Apply, Enabled, Disciplined, Drops, One, Nth, Legal, Replies, Later;
    var s0 := NewPool(1).value;
    ThenReplies(Apply(s0, NewTask(0)).0, Push(0), Later());
    ThenReplies(s0, NewTask(0), [Push(0)] + Later());
  }

  lemma MiddleSteps()
    ensures var s := One([Nth(0, Pending, 0, false)], [0], Ready, [], {});
      Legal(s, Later()) && Replies(s, Later()) == [Ok, Ok, Value(1), Ok, Ok]
  {
    Twice2();
    Twice3();
    LastSteps();
    var (s, running) := (One([Nth(0, Pending, 0, false)], [0], Ready, [], {}),
                         One([Nth(0, Running(0), 0, false)], [0], Working(0), [0], {}));
    Plain(running, Finish(0, 1));
    Plain(s, Take(0));
    hide Apply, Enabled, Disciplined, One, Nth, Legal, Replies;
    var acts := [Join(0, Forever)] + ([Delete(0)] + ([PoolDelete] + []));
    ThenReplies(running, Finish(0, 1), acts);
    ThenReplies(s, Take(0), [Finish(0, 1)] + acts);
  }

  lemma Plain(s: Pool, a: Action)
    requires Enabled(s, a) && (a.Take? || a.Finish?)
    ensures Apply(s, a).1 == Ok
  {
  }

  lemma FirstSteps()
    ensures var (s0, a, b) := (NewPool(1).value, NewTask(0), Push(0));
      && Enabled(s0, a) && Disciplined(s0, a) && !Drops(s0, a) && Apply(s0, a).1 == Ok
      && var s1 := Apply(s0, a).0;
         && Enabled(s1, b) && Disciplined(s1, b) && !Drops(s1, b)
         && Apply(s1, b) == (One([Nth(0, Pending, 0, false)], [0], Ready, [], {}), Ok)
  {
    Twice1();
  }

  lemma LastSteps()
    ensures var (s, acts) := (One([Nth(0, Finished(1), 0, false)], [0], Ready, [0], {0}),
                              [Join(0, Forever)] + ([Delete(0)] + ([PoolDelete] + [])));
      Legal(s, acts) && Replies(s, acts) == [Value(1), Ok, Ok]
  {
    JoinsAndDeletes();
    hide Apply, Enabled, Disciplined, Drops, One, Nth, Left;
    var (s, t) := (One([Nth(0, Finished(1), 0, false)], [0], Ready, [0], {0}), NothingLeft());
    ThenReplies(t, PoolDelete, []);
    ThenReplies(One([Left(0, Finished(1), 0, false)], [0], Ready, [0], {0}), Delete(0), [PoolDelete] + []);
    ThenReplies(s, Join(0, Forever), [Delete(0)] + ([PoolDelete] + []));
  }

  /** The pool after its one push has been deleted. */
  function NothingLeft(): Pool { Pool([], map[], [Ready], 1, 1, 0, 0, true, Absent, 1, [0], {0}) }

  lemma JoinsAndDeletes()
    ensures var (s, u) := (One([Nth(0, Finished(1), 0, false)], [0], Ready, [0], {0}),
                           One([Left(0, Finished(1), 0, false)], [0], Ready, [0], {0}));
      && Enabled(s, Join(0, Forever)) && Disciplined(s, Join(0, Forever)) && !Drops(s, Join(0, Forever))
      && Apply(s, Join(0, Forever)) == (u, Value(1))
      && Enabled(u, Delete(0)) && Disciplined(u, Delete(0)) && !Drops(u, Delete(0))
      && Apply(u, Delete(0)) == (NothingLeft(), Ok)
    ensures var t := NothingLeft();
      && Enabled(t, PoolDelete) && Disciplined(t, PoolDelete) && !Drops(t, PoolDelete)
      && Apply(t, PoolDelete).1 == Ok
  {
    var u := One([Left(0, Finished(1), 0, false)], [0], Ready, [0], {0});
    assert [Nth(0, Finished(1), 0, false)][0 := Left(0, Finished(1), 0, false)] == u.list;
    assert u.list == [Left(0, Finished(1), 0, false)] && Deletable(u.list, 0);
    assert u.list[1..] == [] && map[0 := [0]] - {0} == map[];
  }
}
