/**
 * Which steps lose work: they free a push that has not run to its end, or that a joiner still waits for. A run of the
 * machine ends before such a step; here is exactly when one comes, a rule for clients that excludes it, and runs that
 * meet it.
 */
module PoolDrops {
  import opened PoolModel
  import opened PoolInvariant
  import opened PoolRuns
  import opened PoolDetach

  /** Every join of t has returned, and none gave up on an unfinished push. */
  predicate Settled(list: seq<Entry>, t: nat) {
    forall e | e in list && e.task == t :: e.waiter.Nobody? && (e.joined ==> e.phase.Finished?)
  }

  /** A push of t other than number id is joined and has not finished: a join gave up on it. */
  predicate GaveUp(list: seq<Entry>, t: nat, id: nat) {
    exists e :: e in list && e.task == t && e.id != id && e.joined && !e.phase.Finished?
  }

  // ---------------------------------------------------------------- exactly when

  /** What a step loses that ends with delete_task in state u. */
  lemma DeleteLoses(s: Pool, a: Action, u: Pool, t: nat)
    requires Enabled(s, a) && Frees(a) && Inv(u) && t in u.pushes && Apply(s, a).0 == DeleteTask(u, t).0
    requires |u.list| == |s.list|
    requires forall i | 0 <= i < |s.list| ::
      u.list[i].id == s.list[i].id && (u.list[i].waiter.Nobody? <==> s.list[i].waiter.Nobody?)
    ensures Drops(s, a) <==> Deletable(u.list, t) && !AllOver(u.list, t)
  {
    hide Inv, Apply, Enabled, Deletable, RemoveTask;
    if Drops(s, a) {
      var e :| e in s.list && Find(Apply(s, a).0.list, e.id) == |Apply(s, a).0.list|
        && (e.id !in Apply(s, a).0.finished || !e.waiter.Nobody?);
      var i :| 0 <= i < |s.list| && s.list[i] == e;
      StillFound(u, i);
      RemovedEntry(u, t, i);
      assert u.list[i] in u.list;
    } else if Deletable(u.list, t) {
      forall e | e in u.list && e.task == t ensures e.phase.Finished? && e.waiter.Nobody? {
        var i :| 0 <= i < |u.list| && u.list[i] == e;
        RemovedEntry(u, t, i);
        assert s.list[i] in s.list;
      }
    }
  }

  /** Every push of t has finished and no joiner waits for one. */
  predicate AllOver(list: seq<Entry>, t: nat) {
    forall e | e in list && e.task == t :: e.phase.Finished? && e.waiter.Nobody?
  }

  lemma StillFound(u: Pool, i: nat)
    requires Inv(u) && i < |u.list|
    ensures Find(u.list, u.list[i].id) < |u.list|
  {
  }

  /** thread_task_delete drops work exactly when its flag test passes although a join gave up or is still waiting. */
  lemma DeleteDropsWork(s: Pool, t: nat)
    requires Reachable(s) && t in s.pushes
    ensures Drops(s, Delete(t)) <==> s.pushes[t] != [] && Deletable(s.list, t) && !Settled(s.list, t)
  {
    ReachableInv(s);
    hide Inv, Reachable;
    if s.pushes[t] != [] {
      DeleteLoses(s, Delete(t), s, t);
    } else {
      KeepsAll(s, Delete(t));
    }
  }

  /**
   * thread_task_detach drops work exactly when the latest push has finished, the flag test passes, and a join gave up
   * on an earlier push.
   */
  lemma DetachDropsWork(s: Pool, t: nat)
    requires Reachable(s) && Enabled(s, Detach(t)) && Disciplined(s, Detach(t))
    ensures Drops(s, Detach(t)) <==>
      && Pushed(s, t) && s.list[Latest(s, t)].phase.Finished?
      && OthersJoined(s.list, t, s.pushes[t][0]) && GaveUp(s.list, t, s.pushes[t][0])
  {
    ReachableOneDetached(s);
    hide Inv, Reachable, Drops, Disciplined;
    if Pushed(s, t) && s.list[Latest(s, t)].phase.Finished? {
      FinishedDrops(s, t);
    } else {
      MarkOnly(s, t);
      KeepsAll(s, Detach(t));
    }
  }

  lemma MarkOnly(s: Pool, t: nat)
    requires Enabled(s, Detach(t)) && (Pushed(s, t) ==> !s.list[Latest(s, t)].phase.Finished?)
    ensures var list := Apply(s, Detach(t)).0.list;
      |list| == |s.list| && forall i | 0 <= i < |s.list| :: list[i].id == s.list[i].id
  {
  }

  lemma FinishedDrops(s: Pool, t: nat)
    requires Inv(s) && OneDetached(s.list) && Enabled(s, Detach(t)) && Disciplined(s, Detach(t)) && Pushed(s, t)
    requires s.list[Latest(s, t)].phase.Finished?
    ensures Drops(s, Detach(t))
      <==> OthersJoined(s.list, t, s.pushes[t][0]) && GaveUp(s.list, t, s.pushes[t][0])
  {
    var k := Latest(s, t);
    LatestEntry(s, t);
    DetachMarkInv(s, t);
    AfterDetach(s, t, k);
    hide Inv, Find, OneDetached, OthersJoined, GaveUp, AllOver, Deletable, Drops;
    var u := s.(list := s.list[k := s.list[k].(detached := true)]);
    DeleteLoses(s, Detach(t), u, t);
    MarkedTask(s.list, u.list, k);
    Remaining(u, k);
  }

  /**
   * A worker that finishes a push drops work exactly when the push is detached, the flag test passes, and a join gave
   * up on another push of the task.
   */
  lemma FinishDropsWork(s: Pool, w: nat, r: int)
    requires Reachable(s) && Enabled(s, Finish(w, r))
    ensures var e := s.list[Find(s.list, s.workers[w].entry)];
      Drops(s, Finish(w, r)) <==> e.detached && OthersJoined(s.list, e.task, e.id) && GaveUp(s.list, e.task, e.id)
  {
    ReachableOneDetached(s);
    var k, u := Find(s.list, s.workers[w].entry), Finished1(s, w, r);
    RunningEntry(s, w);
    RunningTask(s, k);
    Finish1Inv(s, w, r);
    hide Inv, Find, OthersJoined, GaveUp, AllOver, Deletable, Drops, Reachable;
    if s.list[k].detached {
      SameDetached(s.list, u.list, k);
      hide OneDetached;
      DeleteLoses(s, Finish(w, r), u, s.list[k].task);
      MarkedTask(s.list, u.list, k);
      Remaining(u, k);
    } else {
      FinishOnly(s, w, r);
      KeepsAll(s, Finish(w, r));
    }
  }

  lemma FinishOnly(s: Pool, w: nat, r: int)
    requires Enabled(s, Finish(w, r)) && !s.list[Find(s.list, s.workers[w].entry)].detached
    ensures var list := Apply(s, Finish(w, r)).0.list;
      |list| == |s.list| && forall i | 0 <= i < |s.list| :: list[i].id == s.list[i].id
  {
  }

  /** Where push k of a task is detached and finished, the flag test and what it would lose are about the others. */
  lemma Remaining(u: Pool, k: nat)
    requires Inv(u) && OneDetached(u.list) && k < |u.list| && u.list[k].detached && u.list[k].phase.Finished?
    ensures var (t, id) := (u.list[k].task, u.list[k].id);
      && (Deletable(u.list, t) <==> OthersJoined(u.list, t, id))
      && (Deletable(u.list, t) ==> (AllOver(u.list, t) <==> !GaveUp(u.list, t, id)))
  {
    hide EntriesOk, HistoryOk, WorkersOk, CountsOk, SleepOk, PushesOk;
    var f := u.list[k];
    assert f in u.list;
    forall e | e in u.list && e.task == f.task ensures e.waiter.Nobody? && (e.id == f.id ==> e == f) {
      var i :| 0 <= i < |u.list| && u.list[i] == e;
      assert u.list[k].detached && u.list[i].task == u.list[k].task;
      FindMember(u.list, e);
      FindMember(u.list, f);
    }
  }

  /** Changing one push of a task leaves what is asked of its others. */
  lemma MarkedTask(a: seq<Entry>, b: seq<Entry>, k: nat)
    requires k < |a| == |b| && b == a[k := b[k]] && b[k].id == a[k].id && b[k].task == a[k].task
    ensures OthersJoined(b, a[k].task, a[k].id) <==> OthersJoined(a, a[k].task, a[k].id)
    ensures GaveUp(b, a[k].task, a[k].id) <==> GaveUp(a, a[k].task, a[k].id)
  {
    SameMembers(a, b, k);
  }

  // ---------------------------------------------------------------- careful clients

  /**
   * The rule for clients that want nothing lost: delete a task only when every join of it has returned and none gave
   * up on an unfinished push, and detach it only when none gave up on an unfinished push but the latest.
   */
  predicate Careful(s: Pool, a: Action) {
    match a
    case Delete(t) => Settled(s.list, t)
    case Detach(t) => Pushed(s, t) ==> !GaveUp(s.list, t, s.pushes[t][0])
    case _ => true
  }

  /** No join gave up on another push of a detached task. */
  ghost predicate Safe(list: seq<Entry>) {
    forall d, e | d in list && e in list && d.detached && e.task == d.task && e.id != d.id ::
      e.joined ==> e.phase.Finished?
  }

  lemma CarefulLosesNothing(s: Pool, a: Action)
    requires Reachable(s) && Safe(s.list) && Enabled(s, a) && Disciplined(s, a) && Careful(s, a)
    ensures !Drops(s, a)
  {
    hide Reachable, Deletable, OthersJoined, Find;
    match a
    case Delete(t) => DeleteDropsWork(s, t);
    case Detach(t) => DetachDropsWork(s, t);
    case Finish(w, r) => FinishDropsWork(s, w, r);
    case _ =>
  }

  /** Entry e is marked joined by step a. */
  predicate JoinedBy(s: Pool, a: Action, e: Entry) {
    a.Join? && !a.timeout.NonPositive? && Pushed(s, a.t) && a.t == e.task && e.id == s.pushes[a.t][0]
  }

  /** After a step, an entry is joined exactly if it was before, or the step joined it; what has finished stays so. */
  lemma JoinOrigin(s: Pool, a: Action, e: Entry) returns (d: Entry)
    requires Inv(s) && Enabled(s, a) && e in Apply(s, a).0.list && (e.joined || e.id < s.nextId)
    ensures d in s.list && d.id == e.id && d.task == e.task && (e.joined <==> d.joined || JoinedBy(s, a, e))
    ensures d.phase.Finished? ==> e.phase.Finished?
  {
    hide Inv, Apply;
    if a.Finish? {
      d := JoinedBeforeFinish(s, a.w, a.r, e);
    } else if a.Take? {
      d := JoinedBeforeTake(s, a.w, e);
    } else if a.Join? {
      if Pushed(s, a.t) { LatestEntry(s, a.t); }
      Orders(s);
      d := JoinedBeforeJoin(s, a.t, a.timeout, e);
    } else {
      d := JoinedFrom(s, a, e);
    }
  }

  lemma JoinedBeforeFinish(s: Pool, w: nat, r: int, e: Entry) returns (d: Entry)
    requires Enabled(s, Finish(w, r)) && e in Apply(s, Finish(w, r)).0.list
    ensures d in s.list && d.id == e.id && d.task == e.task && d.joined == e.joined
    ensures d.phase.Finished? ==> e.phase.Finished?
  {
    var list := Finished1(s, w, r).list;
    assert e in list;
    var i :| 0 <= i < |list| && list[i] == e;
    d := s.list[i];
  }

  lemma JoinedBeforeTake(s: Pool, w: nat, e: Entry) returns (d: Entry)
    requires Inv(s) && Enabled(s, Take(w)) && e in Apply(s, Take(w)).0.list
    ensures d in s.list && d.id == e.id && d.task == e.task && d.joined == e.joined
    ensures d.phase.Finished? ==> e.phase.Finished?
  {
    hide HistoryOk, PushesOk, ClientsOk, CountsOk, SleepOk, EntriesOk, WorkersOk;
    TakeOrder(s, w);
    TakesPending(s);
    d := if e in s.list[1..] then e else s.list[0];
  }

  lemma JoinedBeforeJoin(s: Pool, t: nat, timeout: Timeout, e: Entry) returns (d: Entry)
    requires Enabled(s, Join(t, timeout)) && Ordered(s.list) && e in Apply(s, Join(t, timeout)).0.list
    requires Pushed(s, t) ==> s.list[Latest(s, t)].task == t
    ensures d in s.list && d.id == e.id && d.task == e.task && d.phase == e.phase
    ensures e.joined <==> d.joined || JoinedBy(s, Join(t, timeout), e)
  {
    var list := Apply(s, Join(t, timeout)).0.list;
    var i :| 0 <= i < |list| && list[i] == e;
    d := s.list[i];
    if Pushed(s, t) {
      var k := Latest(s, t);
      assert (i < k ==> Before(s.list[i], s.list[k])) && (k < i ==> Before(s.list[k], s.list[i]));
    }
  }

  lemma JoinedFrom(s: Pool, a: Action, e: Entry) returns (d: Entry)
    requires Enabled(s, a) && e in Apply(s, a).0.list && (e.joined || e.id < s.nextId)
    requires !a.Take? && !a.Finish? && !a.Join?
    ensures d in s.list && d.id == e.id && d.task == e.task && d.phase == e.phase && d.joined == e.joined
  {
    d := e;
    if a.Detach? && Pushed(s, a.t) {
      var k := Latest(s, a.t);
      var list := s.list[k := s.list[k].(detached := true)];
      var i :| 0 <= i < |list| && list[i] == e;
      d := s.list[i];
    } else if a.JoinReturn? || a.JoinTimeOut? {
      var i :| 0 <= i < |s.list| && Apply(s, a).0.list[i] == e;
      d := s.list[i];
    }
  }

  lemma SafeStep(s: Pool, a: Action)
    requires Inv(s) && Safe(s.list) && Enabled(s, a) && Disciplined(s, a) && Careful(s, a)
    ensures Safe(Apply(s, a).0.list)
  {
    hide Inv, Apply, Enabled;
    var list := Apply(s, a).0.list;
    forall d, e | d in list && e in list && d.detached && e.task == d.task && e.id != d.id && e.joined
      ensures e.phase.Finished?
    {
      var d0 := DetachOrigin(s, a, d);
      var e0 := JoinOrigin(s, a, e);
    }
  }

  /** A run of steps that the threads can take and a careful client may take. */
  ghost predicate CarefulRun(s: Pool, acts: seq<Action>)
    decreases |acts|
  {
    acts == [] || (
      && Enabled(s, acts[0]) && Disciplined(s, acts[0]) && Careful(s, acts[0])
      && CarefulRun(Apply(s, acts[0]).0, acts[1..]))
  }

  /** Careful clients lose nothing, whatever the threads do. */
  lemma CarefulRuns(n: int, acts: seq<Action>)
    requires NewPool(n).Some? && CarefulRun(NewPool(n).value, acts)
    ensures Legal(NewPool(n).value, acts) && Safe(End(NewPool(n).value, acts).list)
  {
    assert NewPool(n).value == End(NewPool(n).value, []);
    CarefulFrom(NewPool(n).value, acts);
  }

  lemma {:induction false} CarefulFrom(s: Pool, acts: seq<Action>)
    requires Reachable(s) && Safe(s.list) && CarefulRun(s, acts)
    ensures Legal(s, acts) && Safe(End(s, acts).list)
    decreases |acts|
  {
    hide Inv, Reachable, Apply, Enabled, Disciplined, Drops, Careful, Safe;
    if acts != [] {
      ReachableInv(s);
      CarefulLosesNothing(s, acts[0]);
      SafeStep(s, acts[0]);
      ReachesOn(s, acts[0]);
      CarefulFrom(Apply(s, acts[0]).0, acts[1..]);
    }
  }

  lemma ReachesOn(s: Pool, a: Action)
    requires Reachable(s) && Enabled(s, a) && Disciplined(s, a) && !Drops(s, a)
    ensures Reachable(Apply(s, a).0)
  {
    hide Apply, Enabled, Disciplined, Drops;
    var n: int, acts :| NewPool(n).Some? && Legal(NewPool(n).value, acts) && s == End(NewPool(n).value, acts);
    Then(s, a, []);
    Concat(NewPool(n).value, acts, [a] + []);
  }

  /** In their pools, when no worker can move any more, every push ever made has run to its end. */
  lemma CarefulDrains(n: int, acts: seq<Action>, work: seq<Action>)
    requires NewPool(n).Some? && CarefulRun(NewPool(n).value, acts)
    ensures Legal(NewPool(n).value, acts)
    ensures var s := End(NewPool(n).value, acts);
      s.isActive && CarefulRun(s, work) && (forall i | 0 <= i < |work| :: ByWorker(work[i])) ==>
        && Legal(s, work) && |work| <= Work(s)
        && (Quiescent(End(s, work)) ==> forall id: nat | id < s.nextId :: id in End(s, work).finished)
  {
    hide Inv, Safe, Work;
    CarefulRuns(n, acts);
    var s := End(NewPool(n).value, acts);
    if s.isActive && CarefulRun(s, work) && forall i | 0 <= i < |work| :: ByWorker(work[i]) {
      ReachableInv(s);
      CarefulFrom(s, work);
      DrainIsFinite(s, work);
      if Quiescent(End(s, work)) { Drains(s, work); }
    }
  }

  // ---------------------------------------------------------------- runs

  /** Push number id of task 0, after a join gave up on it. */
  function Left(id: nat, phase: Phase, start: nat, detached: bool): Entry {
    Entry(id, 0, phase, start, true, detached, Nobody)
  }

  const GIVEUP: seq<Action> := [NewTask(0), Push(0), Join(0, Positive), JoinTimeOut(0)]

  lemma Waits()
    ensures var s := One([Nth(0, Pending, 0, false)], [0], Ready, [], {});
      && Enabled(s, Join(0, Positive)) && Disciplined(s, Join(0, Positive))
      && Apply(s, Join(0, Positive)).0
        == One([Left(0, Pending, 0, false).(waiter := Blocked(true))], [0], Ready, [], {})
    ensures var s := One([Left(0, Pending, 0, false).(waiter := Blocked(true))], [0], Ready, [], {});
      && Enabled(s, JoinTimeOut(0)) && Disciplined(s, JoinTimeOut(0))
      && Apply(s, JoinTimeOut(0)).0 == One([Left(0, Pending, 0, false)], [0], Ready, [], {})
  {
  }

  lemma JoinsAndLeaves(rest: seq<Action>)
    requires Legal(One([Left(0, Pending, 0, false)], [0], Ready, [], {}), rest)
    ensures var (s, acts) := (One([Nth(0, Pending, 0, false)], [0], Ready, [], {}),
                              [Join(0, Positive)] + ([JoinTimeOut(0)] + rest));
      Legal(s, acts) && End(s, acts) == End(One([Left(0, Pending, 0, false)], [0], Ready, [], {}), rest)
  {
    Waits();
    hide Apply, Enabled, Disciplined, One, Nth, Left;
    Then(One([Left(0, Pending, 0, false).(waiter := Blocked(true))], [0], Ready, [], {}), JoinTimeOut(0), rest);
    Then(One([Nth(0, Pending, 0, false)], [0], Ready, [], {}), Join(0, Positive), [JoinTimeOut(0)] + rest);
  }

  /** A task is pushed, and a timed join on it gives up before a worker has taken it. */
  lemma GivesUp(rest: seq<Action>)
    requires Legal(One([Left(0, Pending, 0, false)], [0], Ready, [], {}), rest)
    ensures Legal(NewPool(1).value, GIVEUP + rest)
    ensures End(NewPool(1).value, GIVEUP + rest) == End(One([Left(0, Pending, 0, false)], [0], Ready, [], {}), rest)
  {
    var s0 := NewPool(1).value;
    JoinsAndLeaves(rest);
    Twice1();
    Fresh(s0);
    hide Apply, Enabled, Disciplined, One, Nth, Left;
    var acts := [Join(0, Positive)] + ([JoinTimeOut(0)] + rest);
    Then(Apply(s0, NewTask(0)).0, Push(0), acts);
    Then(s0, NewTask(0), [Push(0)] + acts);
    assert GIVEUP + rest == [NewTask(0)] + ([Push(0)] + acts);
  }

  /** The header promises that a timed-out join does nothing; after it, delete drops a push that never ran. */
  lemma TimedOutJoinUnlocksDelete()
    ensures Legal(NewPool(1).value, GIVEUP)
    ensures var s := End(NewPool(1).value, GIVEUP);
      && s.list == [Left(0, Pending, 0, false)] && Disciplined(s, Delete(0)) && Enabled(s, Delete(0))
      && Drops(s, Delete(0)) && Apply(s, Delete(0)).0.list == []
  {
    GivesUp([]);
    assert GIVEUP + [] == GIVEUP;
    var s := End(NewPool(1).value, GIVEUP);
    assert s == One([Left(0, Pending, 0, false)], [0], Ready, [], {});
    assert s.list[0] in s.list;
  }

  /** A task whose one join gave up may be detached: it runs, and is freed when it has finished. */
  lemma DetachedAfterTimeOut()
    ensures var (s0, acts) := (NewPool(1).value, GIVEUP + [Detach(0), Take(0), Finish(0, 1)]);
      && Legal(s0, acts) && End(s0, acts).list == [] && 0 !in End(s0, acts).pushes && 0 in End(s0, acts).finished
  {
    var s := One([Left(0, Pending, 0, false)], [0], Ready, [], {});
    DetachedRuns();
    GivesUp([Detach(0), Take(0), Finish(0, 1)]);
  }

  lemma DetachedRuns()
    ensures var s := One([Left(0, Pending, 0, false)], [0], Ready, [], {});
      var acts := [Detach(0), Take(0), Finish(0, 1)];
      && Legal(s, acts) && End(s, acts).list == [] && 0 !in End(s, acts).pushes && 0 in End(s, acts).finished
  {
    Detaches1();
    Frees1();
    hide Apply, Enabled, Disciplined, Drops, One, Left;
    var running := One([Left(0, Running(0), 0, true)], [0], Working(0), [0], {});
    Then(running, Finish(0, 1), []);
    Then(One([Left(0, Pending, 0, true)], [0], Ready, [], {}), Take(0), [Finish(0, 1)] + []);
    Then(One([Left(0, Pending, 0, false)], [0], Ready, [], {}), Detach(0), [Take(0)] + ([Finish(0, 1)] + []));
    assert [Detach(0)] + ([Take(0)] + ([Finish(0, 1)] + [])) == [Detach(0), Take(0), Finish(0, 1)];
  }

  lemma Detaches1()
    ensures var s := One([Left(0, Pending, 0, false)], [0], Ready, [], {});
      && Enabled(s, Detach(0)) && Disciplined(s, Detach(0)) && !Drops(s, Detach(0))
      && Apply(s, Detach(0)).0 == One([Left(0, Pending, 0, true)], [0], Ready, [], {})
    ensures var s := One([Left(0, Pending, 0, true)], [0], Ready, [], {});
      && Enabled(s, Take(0)) && Disciplined(s, Take(0)) && !Drops(s, Take(0))
      && Apply(s, Take(0)).0 == One([Left(0, Running(0), 0, true)], [0], Working(0), [0], {})
  {
    KeepsAll(One([Left(0, Pending, 0, false)], [0], Ready, [], {}), Detach(0));
  }

  lemma Frees1()
    ensures var s := One([Left(0, Running(0), 0, true)], [0], Working(0), [0], {});
      && Enabled(s, Finish(0, 1)) && Disciplined(s, Finish(0, 1)) && !Drops(s, Finish(0, 1))
      && Apply(s, Finish(0, 1)).0.list == [] && 0 !in Apply(s, Finish(0, 1)).0.pushes
      && 0 in Apply(s, Finish(0, 1)).0.finished
  {
    var s := One([Left(0, Running(0), 0, true)], [0], Working(0), [0], {});
    var u := Finished1(s, 0, 1);
    assert u.list == [Left(0, Finished(1), 0, true)] && Deletable(u.list, 0);
  }

  const LOSING: seq<Action> := [Push(0), Detach(0), Take(0)]

  /** Pushed again before it is detached, the task loses its first push, which never runs. */
  lemma PushIsLost()
    ensures Legal(NewPool(1).value, GIVEUP + LOSING)
    ensures var s := End(NewPool(1).value, GIVEUP + LOSING);
      && Enabled(s, Finish(0, 1)) && Drops(s, Finish(0, 1))
      && var t := Apply(s, Finish(0, 1)).0;
         t.list == [] && 0 !in t.pushes && t.nextId == 2 && t.executed == [1]
  {
    LosingRuns();
    GivesUp(LOSING);
  }

  lemma LosingRuns()
    ensures var s := One([Left(0, Pending, 0, false)], [0], Ready, [], {});
      Legal(s, LOSING) && var t := End(s, LOSING);
        && Enabled(t, Finish(0, 1)) && Drops(t, Finish(0, 1))
        && var u := Apply(t, Finish(0, 1)).0; u.list == [] && 0 !in u.pushes && u.nextId == 2 && u.executed == [1]
  {
    Pushes2();
    Detaches2();
    Takes2();
    Loses2();
    hide Apply, Enabled, Disciplined, Drops, One, Nth, Left;
    Then(One([Nth(1, Pending, 0, true), Left(0, Pending, 0, false)], [1, 0], Ready, [], {}), Take(0), []);
    var acts := [Take(0)] + [];
    Then(One([Nth(1, Pending, 0, false), Left(0, Pending, 0, false)], [1, 0], Ready, [], {}), Detach(0), acts);
    acts := [Detach(0)] + acts;
    Then(One([Left(0, Pending, 0, false)], [0], Ready, [], {}), Push(0), acts);
    assert [Push(0)] + acts == LOSING;
  }

  lemma Pushes2()
    ensures var s := One([Left(0, Pending, 0, false)], [0], Ready, [], {});
      && Enabled(s, Push(0)) && Disciplined(s, Push(0)) && !Drops(s, Push(0))
      && Apply(s, Push(0)).0 == One([Nth(1, Pending, 0, false), Left(0, Pending, 0, false)], [1, 0], Ready, [], {})
  {
    var s := One([Left(0, Pending, 0, false)], [0], Ready, [], {});
    assert Broadcast([Ready]) == [Ready] && [1] + [0] == [1, 0];
    assert s.pushes[0 := [1, 0]] == map[0 := [1, 0]];
    assert [Nth(1, Pending, 0, false)] + s.list == [Nth(1, Pending, 0, false), Left(0, Pending, 0, false)];
  }

  lemma Detaches2()
    ensures var s := One([Nth(1, Pending, 0, false), Left(0, Pending, 0, false)], [1, 0], Ready, [], {});
      && Enabled(s, Detach(0)) && Disciplined(s, Detach(0)) && !Drops(s, Detach(0))
      && Apply(s, Detach(0)).0 == One([Nth(1, Pending, 0, true), Left(0, Pending, 0, false)], [1, 0], Ready, [], {})
  {
    KeepsAll(One([Nth(1, Pending, 0, false), Left(0, Pending, 0, false)], [1, 0], Ready, [], {}), Detach(0));
  }

  lemma Takes2()
    ensures var s := One([Nth(1, Pending, 0, true), Left(0, Pending, 0, false)], [1, 0], Ready, [], {});
      && Enabled(s, Take(0)) && Disciplined(s, Take(0)) && !Drops(s, Take(0))
      && Apply(s, Take(0)).0
          == One([Left(0, Pending, 0, false), Nth(1, Running(0), 0, true)], [1, 0], Working(1), [1], {})
  {
    var list := [Nth(1, Pending, 0, true), Left(0, Pending, 0, false)];
    assert FirstPending(list) == 0 && list[..0] == [] && list[1..] == [Left(0, Pending, 0, false)];
  }

  lemma Loses2()
    ensures var s := One([Left(0, Pending, 0, false), Nth(1, Running(0), 0, true)], [1, 0], Working(1), [1], {});
      && Enabled(s, Finish(0, 1)) && Disciplined(s, Finish(0, 1)) && Drops(s, Finish(0, 1))
      && var t := Apply(s, Finish(0, 1)).0;
         t.list == [] && 0 !in t.pushes && t.nextId == 2 && t.executed == [1]
  {
    hide Find, RemoveTask, Apply, Deletable;
    var (a, b, c) := (Left(0, Pending, 0, false), Nth(1, Running(0), 0, true), Nth(1, Finished(1), 0, true));
    var s := One([a, b], [1, 0], Working(1), [1], {});
    FindSecond(a, b);
    assert [a, b][1 := c] == [a, c] && Finished1(s, 0, 1).list == [a, c];
    RemovesBoth(a, c);
    FreesTask(s, 0, 1);
    LosesFirst(s, Finish(0, 1));
  }

  lemma FreesTask(s: Pool, w: nat, r: int)
    requires Enabled(s, Finish(w, r))
    requires var (e, u) := (s.list[Find(s.list, s.workers[w].entry)], Finished1(s, w, r));
      e.detached && e.task in s.pushes && Deletable(u.list, e.task) && RemoveTask(u.list, e.task) == []
    ensures var t := Apply(s, Finish(w, r)).0;
      && t.list == [] && t.pushes == s.pushes - {s.list[Find(s.list, s.workers[w].entry)].task}
      && t.nextId == s.nextId && t.executed == s.executed && t.finished == Finished1(s, w, r).finished
  {
    hide Find, RemoveTask, Deletable;
  }

  lemma LosesFirst(s: Pool, a: Action)
    requires Enabled(s, a) && Frees(a) && Apply(s, a).0.list == [] && s.list != []
    requires s.list[0].id !in Apply(s, a).0.finished
    ensures Drops(s, a)
  {
    hide Apply;
    assert s.list[0] in s.list;
  }

  lemma RemovesBoth(a: Entry, c: Entry)
    requires a.task == c.task && Loose(a) && Loose(c)
    ensures Deletable([a, c], a.task) && RemoveTask([a, c], a.task) == []
  {
    assert [a, c][1..] == [c];
  }
}
