/**
 * What becomes of detached tasks. thread_pool.h promises that a detached task is deleted when it is finished;
 * the code frees it then only if every earlier push of it has been joined, and otherwise never.
 */
module PoolDetach {
  import opened PoolModel
  import opened PoolInvariant
  import opened PoolRuns

  /** No two pushes of a task are detached. */
  ghost predicate OneDetached(list: seq<Entry>) {
    forall a, b | a in list && b in list && a.detached && b.detached && a.task == b.task :: a.id == b.id
  }

  /** Entry e was detached by step a. */
  predicate DetachedBy(s: Pool, a: Action, e: Entry) {
    && a.Detach? && a.t == e.task && Pushed(s, a.t)
    && Latest(s, a.t) < |s.list| && e.id == s.list[Latest(s, a.t)].id
  }

  /** After a step, an entry is detached exactly if it was before, or the step detached it. */
  lemma DetachOrigin(s: Pool, a: Action, e: Entry) returns (d: Entry)
    requires Inv(s) && Enabled(s, a) && e in Apply(s, a).0.list && (e.detached || e.id < s.nextId)
    ensures d in s.list && d.id == e.id && d.task == e.task && (e.detached <==> d.detached || DetachedBy(s, a, e))
  {
    d := e;
    match a
    case Finish(w, r) =>
      hide Inv;
      d := FinishedFrom(s, w, r, e);
    case Take(w) =>
      hide HistoryOk, PushesOk, ClientsOk, CountsOk, SleepOk, EntriesOk, WorkersOk;
      TakeOrder(s, w);
      d := if e in s.list[1..] then e else s.list[0];
    case Detach(t) =>
      if Pushed(s, t) { LatestEntry(s, t); }
      Orders(s);
      hide Inv, Ordered;
      d := MarkedFrom(s, t, e);
    case _ =>
      hide Inv;
      d := TouchedFrom(s, a, e);
  }

  lemma Orders(s: Pool)
    requires Inv(s)
    ensures Ordered(s.list)
  {
  }

  lemma FinishedFrom(s: Pool, w: nat, r: int, e: Entry) returns (d: Entry)
    requires Enabled(s, Finish(w, r)) && e in Apply(s, Finish(w, r)).0.list
    ensures d in s.list && d.id == e.id && d.task == e.task && d.detached == e.detached
  {
    var list := Finished1(s, w, r).list;
    assert e in list;
    var i :| 0 <= i < |list| && list[i] == e;
    d := s.list[i];
  }

  lemma MarkedFrom(s: Pool, t: nat, e: Entry) returns (d: Entry)
    requires Enabled(s, Detach(t)) && e in Apply(s, Detach(t)).0.list && Ordered(s.list)
    requires Pushed(s, t) ==> s.list[Latest(s, t)].task == t
    ensures d in s.list && d.id == e.id && d.task == e.task
    ensures e.detached <==> d.detached || DetachedBy(s, Detach(t), e)
  {
    d := e;
    if Pushed(s, t) {
      var k := Latest(s, t);
      var list := s.list[k := s.list[k].(detached := true)];
      var i :| 0 <= i < |list| && list[i] == e;
      d := s.list[i];
      assert (i < k ==> Before(s.list[i], s.list[k])) && (k < i ==> Before(s.list[k], s.list[i]));
    }
  }

  lemma TouchedFrom(s: Pool, a: Action, e: Entry) returns (d: Entry)
    requires Enabled(s, a) && e in Apply(s, a).0.list && (e.detached || e.id < s.nextId)
    requires !a.Take? && !a.Finish? && !a.Detach?
    ensures d in s.list && d.id == e.id && d.task == e.task && d.detached == e.detached
  {
    d := e;
    if a.Join? || a.JoinReturn? || a.JoinTimeOut? {
      var i :| 0 <= i < |s.list| && Apply(s, a).0.list[i] == e;
      d := s.list[i];
    }
  }

  lemma OneDetachedStep(s: Pool, a: Action)
    requires Inv(s) && Enabled(s, a) && Disciplined(s, a) && OneDetached(s.list)
    ensures OneDetached(Apply(s, a).0.list)
  {
    hide Inv, Apply, Enabled;
    var list := Apply(s, a).0.list;
    forall x, y | x in list && y in list && x.detached && y.detached && x.task == y.task ensures x.id == y.id {
      var d := DetachOrigin(s, a, x);
      var e := DetachOrigin(s, a, y);
    }
  }

  lemma {:induction false} OneDetachedRun(s: Pool, acts: seq<Action>)
    requires Inv(s) && OneDetached(s.list) && Legal(s, acts)
    ensures OneDetached(End(s, acts).list)
    decreases |acts|
  {
    hide Inv, Apply, Enabled, Disciplined, Drops, OneDetached;
    if acts != [] {
      OneDetachedStep(s, acts[0]);
      StepInv(s, acts[0]);
      OneDetachedRun(Apply(s, acts[0]).0, acts[1..]);
    }
  }

  lemma ReachableOneDetached(s: Pool)
    requires Reachable(s)
    ensures Inv(s) && OneDetached(s.list)
  {
    ReachableInv(s);
    hide Inv;
    var n: int, acts :| NewPool(n).Some? && Legal(NewPool(n).value, acts) && s == End(NewPool(n).value, acts);
    NewPoolInv(n);
    OneDetachedRun(NewPool(n).value, acts);
  }

  // ---------------------------------------------------------------- when a detached task is freed

  /** Every push of t but number id has been joined. */
  predicate OthersJoined(list: seq<Entry>, t: nat, id: nat) {
    forall e | e in list && e.task == t && e.id != id :: e.joined
  }

  /** If push k of a task is detached and finished, delete_task frees the task exactly if the others are joined. */
  lemma FreedExactly(s: Pool, k: nat)
    requires Inv(s) && OneDetached(s.list) && k < |s.list| && s.list[k].detached && s.list[k].phase.Finished?
    requires s.list[k].task in s.pushes
    ensures s.list[k].task !in DeleteTask(s, s.list[k].task).0.pushes
      <==> OthersJoined(s.list, s.list[k].task, s.list[k].id)
  {
    hide EntriesOk, HistoryOk, WorkersOk, CountsOk, SleepOk, PushesOk, ClientsOk;
    var f := s.list[k];
    assert f in s.list;
    forall e | e in s.list && e.task == f.task && e.id == f.id ensures e == f {
      FindMember(s.list, e);
      FindMember(s.list, f);
    }
  }

  /** The finishing of a detached push frees its task exactly if every other push of the task has been joined. */
  lemma FinishFrees(s: Pool, w: nat, r: int)
    requires Reachable(s) && Enabled(s, Finish(w, r)) && s.list[Find(s.list, s.workers[w].entry)].detached
    ensures var e := s.list[Find(s.list, s.workers[w].entry)];
      e.task !in Apply(s, Finish(w, r)).0.pushes <==> OthersJoined(s.list, e.task, e.id)
  {
    ReachableOneDetached(s);
    var k, t := Find(s.list, s.workers[w].entry), Finished1(s, w, r);
    RunningEntry(s, w);
    RunningTask(s, k);
    Finish1Inv(s, w, r);
    hide Inv, Find;
    SameDetached(s.list, t.list, k);
    FreedExactly(t, k);
    SameOthers(s.list, t.list, k);
  }

  lemma RunningTask(s: Pool, k: nat)
    requires PushesOk(s.list, s.pushes) && k < |s.list|
    ensures s.list[k].task in s.pushes
  {
  }

  lemma SameDetached(a: seq<Entry>, b: seq<Entry>, k: nat)
    requires k < |a| == |b| && OneDetached(a) && b == a[k := b[k]]
    requires b[k].id == a[k].id && b[k].task == a[k].task && b[k].detached == a[k].detached
    ensures OneDetached(b)
  {
    forall x, y | x in b && y in b && x.detached && y.detached && x.task == y.task ensures x.id == y.id {
      var i :| 0 <= i < |b| && b[i] == x;
      var j :| 0 <= j < |b| && b[j] == y;
      assert a[i] in a && a[j] in a;
    }
  }

  lemma SameOthers(a: seq<Entry>, b: seq<Entry>, k: nat)
    requires k < |a| == |b| && b == a[k := b[k]] && b[k].id == a[k].id && b[k].task == a[k].task
    ensures OthersJoined(b, a[k].task, a[k].id) <==> OthersJoined(a, a[k].task, a[k].id)
  {
    SameMembers(a, b, k);
  }

  lemma SameMembers(a: seq<Entry>, b: seq<Entry>, k: nat)
    requires k < |a| == |b| && b == a[k := b[k]] && b[k].id == a[k].id
    ensures forall e | e in a && e.id != a[k].id :: e in b
    ensures forall e | e in b && e.id != a[k].id :: e in a
  {
    forall e | e in a && e.id != a[k].id ensures e in b {
      var i :| 0 <= i < |a| && a[i] == e;
      assert b[i] == e;
    }
    forall e | e in b && e.id != a[k].id ensures e in a {
      var i :| 0 <= i < |b| && b[i] == e;
      assert a[i] == e;
    }
  }

  /** Detaching a task whose latest push has finished frees it on the same condition. */
  lemma DetachFrees(s: Pool, t: nat)
    requires Reachable(s) && Enabled(s, Detach(t)) && Disciplined(s, Detach(t)) && Pushed(s, t)
    requires s.list[Latest(s, t)].phase.Finished?
    ensures t !in Apply(s, Detach(t)).0.pushes <==> OthersJoined(s.list, t, s.list[Latest(s, t)].id)
  {
    ReachableOneDetached(s);
    LatestEntry(s, t);
    var k := Latest(s, t);
    var e := s.list[k].(detached := true);
    var u := s.(list := s.list[k := e]);
    DetachMarkInv(s, t);
    hide Inv;
    AfterDetach(s, t, k);
    FreedExactly(u, k);
    SameOthers(s.list, u.list, k);
  }

  lemma AfterDetach(s: Pool, t: nat, k: nat)
    requires OneDetached(s.list) && Attached(s.list, t) && k < |s.list| && s.list[k].task == t
    ensures OneDetached(s.list[k := s.list[k].(detached := true)])
  {
    var list := s.list[k := s.list[k].(detached := true)];
    forall x, y | x in list && y in list && x.detached && y.detached && x.task == y.task ensures x.id == y.id {
      var i :| 0 <= i < |list| && list[i] == x;
      var j :| 0 <= j < |list| && list[j] == y;
      assert s.list[i] in s.list && s.list[j] in s.list;
    }
  }

  // ---------------------------------------------------------------- and when it never is

  /** A finished push that is detached and still listed stays as it is in every step. */
  lemma StuckStep(s: Pool, a: Action, e: Entry)
    requires Inv(s) && OneDetached(s.list) && Enabled(s, a) && Disciplined(s, a)
    requires e in s.list && e.detached && e.phase.Finished?
    ensures e in Apply(s, a).0.list
  {
    hide Inv, Apply, OneDetached;
    var k :| 0 <= k < |s.list| && s.list[k] == e;
    match a
    case Finish(w, r) =>
      RunningEntry(s, w);
      Orders(s);
      FinishStays(s, w, r, k);
    case Take(w) => TakeStays(s, w, k);
    case JoinReturn(id) => JoinStays(s, a, k);
    case JoinTimeOut(id) => JoinStays(s, a, k);
    case Join(t, _) => JoinStays(s, a, k);
    case Detach(t) =>
      Apart(s, t, k);
      DetachStays(s, t, k);
    case _ => OthersStay(s, a, e);
  }

  lemma TakeStays(s: Pool, w: nat, k: nat)
    requires Inv(s) && Enabled(s, Take(w)) && k < |s.list| && s.list[k].phase.Finished?
    ensures s.list[k] in Apply(s, Take(w)).0.list
  {
    hide HistoryOk, PushesOk, ClientsOk, CountsOk, SleepOk, EntriesOk, WorkersOk;
    TakeOrder(s, w);
    TakesPending(s);
    assert Apply(s, Take(w)).0.list[k - 1] == s.list[k];
  }

  /** The steps of a join are on other entries. */
  lemma JoinStays(s: Pool, a: Action, k: nat)
    requires Inv(s) && Enabled(s, a) && Disciplined(s, a) && k < |s.list| && s.list[k].detached
    requires a.Join? || a.JoinReturn? || a.JoinTimeOut?
    ensures s.list[k] in Apply(s, a).0.list
  {
    hide HistoryOk, PushesOk, CountsOk, SleepOk, EntriesOk, WorkersOk, Ordered;
    match a
    case Join(t, _) => Apart(s, t, k); assert Apply(s, a).0.list[k] == s.list[k];
    case JoinReturn(id) => NotJoined(s, k, id); assert Apply(s, a).0.list[k] == s.list[k];
    case JoinTimeOut(id) => NotJoined(s, k, id); assert Apply(s, a).0.list[k] == s.list[k];
  }

  lemma OthersStay(s: Pool, a: Action, e: Entry)
    requires Enabled(s, a) && Disciplined(s, a) && e in s.list && e.detached
    requires !a.Finish? && !a.Take? && !a.JoinReturn? && !a.JoinTimeOut? && !a.Join? && !a.Detach?
    ensures e in Apply(s, a).0.list
  {
  }

  lemma TakesPending(s: Pool)
    requires FirstPending(s.list) == 0 < |s.list|
    ensures s.list[0].phase.Pending?
  {
  }

  lemma NotJoined(s: Pool, k: nat, id: nat)
    requires ClientsOk(s.list) && k < |s.list| && s.list[k].detached
    requires Find(s.list, id) < |s.list| && !s.list[Find(s.list, id)].waiter.Nobody?
    ensures Find(s.list, id) != k
  {
    assert s.list[k].waiter.Nobody?;
  }

  lemma Apart(s: Pool, t: nat, k: nat)
    requires Inv(s) && Attached(s.list, t) && k < |s.list| && s.list[k].detached
    ensures s.list[k].task != t && (Pushed(s, t) ==> Latest(s, t) != k && s.list[Latest(s, t)].task == t)
  {
    assert s.list[k] in s.list;
    if Pushed(s, t) { LatestEntry(s, t); }
  }

  lemma DetachStays(s: Pool, t: nat, k: nat)
    requires Enabled(s, Detach(t)) && k < |s.list| && s.list[k].task != t && (Pushed(s, t) ==> Latest(s, t) != k)
    ensures s.list[k] in Apply(s, Detach(t)).0.list
  {
    if Pushed(s, t) {
      var list := s.list[Latest(s, t) := s.list[Latest(s, t)].(detached := true)];
      assert list[k] == s.list[k] && s.list[k] in list;
    }
  }

  lemma FinishStays(s: Pool, w: nat, r: int, k: nat)
    requires Enabled(s, Finish(w, r)) && OneDetached(s.list) && k < |s.list| && s.list[k].detached
    requires s.list[k].phase.Finished? && s.list[Find(s.list, s.workers[w].entry)].phase.Running? && Ordered(s.list)
    ensures s.list[k] in Apply(s, Finish(w, r)).0.list
  {
    var j := Find(s.list, s.workers[w].entry);
    var list := Finished1(s, w, r).list;
    assert list[k] == s.list[k] && s.list[k] in list;
    assert s.list[j] in s.list && s.list[k] in s.list;
    assert (j < k ==> Before(s.list[j], s.list[k])) && (k < j ==> Before(s.list[k], s.list[j]));
  }

  /**
   * If a detached push has finished and was not freed, it is never freed: it stays listed over any run, and the
   * pool that holds it cannot be deleted.
   */
  lemma {:induction false} NeverFreed(s: Pool, acts: seq<Action>, e: Entry)
    requires Inv(s) && OneDetached(s.list) && Legal(s, acts) && e in s.list && e.detached && e.phase.Finished?
    ensures var t := End(s, acts);
      e in t.list && (Enabled(t, PoolDelete) ==> Apply(t, PoolDelete).1 == Fails(HasTasks))
    decreases |acts|
  {
    hide Inv, Apply, Enabled, Disciplined, Drops, OneDetached;
    if acts == [] {
      StillListed(s, e);
    } else {
      StuckStep(s, acts[0], e);
      OneDetachedStep(s, acts[0]);
      StepInv(s, acts[0]);
      NeverFreed(Apply(s, acts[0]).0, acts[1..], e);
    }
  }

  lemma StillListed(s: Pool, e: Entry)
    requires Inv(s) && e in s.list
    ensures Enabled(s, PoolDelete) ==> Apply(s, PoolDelete).1 == Fails(HasTasks)
  {
    hide EntriesOk, HistoryOk, WorkersOk, SleepOk, PushesOk, ClientsOk, Ordered;
  }

  // ---------------------------------------------------------------- a run

  /** A task pushed twice and detached at the second push: both pushes run, and the task is never freed. */
  const TWICE: seq<Action> :=
    [NewTask(0), Push(0), Take(0), Finish(0, 1), Push(0), Detach(0), Take(0), Finish(0, 2)]

  /** Push number id of task 0. */
  function Nth(id: nat, phase: Phase, start: nat, detached: bool): Entry {
    Entry(id, 0, phase, start, false, detached, Nobody)
  }

  /** A pool with one worker and these entries, all of task 0. */
  function One(list: seq<Entry>, ids: seq<nat>, w: Worker, executed: seq<nat>, finished: set<nat>): Pool {
    Pool(list, map[0 := ids], [w], 1, 1, if w.Working? then 1 else 0, |list|, true, Absent, |ids|, executed, finished)
  }

  /** A step that keeps every entry where it is drops nothing. */
  lemma KeepsAll(s: Pool, a: Action)
    requires Enabled(s, a)
    requires var list := Apply(s, a).0.list;
      |list| == |s.list| && forall i | 0 <= i < |s.list| :: list[i].id == s.list[i].id
    ensures !Drops(s, a)
  {
    hide Apply, Enabled, Find;
    var list := Apply(s, a).0.list;
    forall e | e in s.list ensures Find(list, e.id) < |list| { FindSame(s.list, list, e.id); }
  }

  lemma Twice1()
    ensures var s0 := NewPool(1).value;
      && Enabled(s0, NewTask(0)) && Enabled(Apply(s0, NewTask(0)).0, Push(0))
      && Disciplined(Apply(s0, NewTask(0)).0, Push(0))
      && Apply(Apply(s0, NewTask(0)).0, Push(0)).0 == One([Nth(0, Pending, 0, false)], [0], Ready, [], {})
  {
    var s1 := Apply(NewPool(1).value, NewTask(0)).0;
    assert s1.workers + [Ready] == [Ready] && Broadcast([Ready]) == [Ready];
    assert [0] + s1.pushes[0] == [0];
  }

  lemma Twice2()
    ensures var (s, a) := (One([Nth(0, Pending, 0, false)], [0], Ready, [], {}), Take(0));
      && Enabled(s, a) && Disciplined(s, a)
      && Apply(s, a).0 == One([Nth(0, Running(0), 0, false)], [0], Working(0), [0], {})
  {
  }

  lemma Twice3()
    ensures var (s, a) := (One([Nth(0, Running(0), 0, false)], [0], Working(0), [0], {}), Finish(0, 1));
      && Enabled(s, a) && Disciplined(s, a) && !Drops(s, a)
      && Apply(s, a).0 == One([Nth(0, Finished(1), 0, false)], [0], Ready, [0], {0})
  {
    KeepsAll(One([Nth(0, Running(0), 0, false)], [0], Working(0), [0], {}), Finish(0, 1));
  }

  lemma Twice4()
    ensures var (s, a) := (One([Nth(0, Finished(1), 0, false)], [0], Ready, [0], {0}), Push(0));
      && Enabled(s, a) && Disciplined(s, a)
      && Apply(s, a).0 == One([Nth(1, Pending, 0, false), Nth(0, Finished(1), 0, false)], [1, 0], Ready, [0], {0})
  {
    var s := One([Nth(0, Finished(1), 0, false)], [0], Ready, [0], {0});
    assert Broadcast([Ready]) == [Ready] && [1] + [0] == [1, 0];
    assert s.pushes[0 := [1, 0]] == map[0 := [1, 0]];
    assert [Nth(1, Pending, 0, false)] + s.list == [Nth(1, Pending, 0, false), Nth(0, Finished(1), 0, false)];
  }

  lemma Twice5()
    ensures var s := One([Nth(1, Pending, 0, false), Nth(0, Finished(1), 0, false)], [1, 0], Ready, [0], {0});
      && Enabled(s, Detach(0)) && Disciplined(s, Detach(0)) && !Drops(s, Detach(0))
      && Apply(s, Detach(0)).0
          == One([Nth(1, Pending, 0, true), Nth(0, Finished(1), 0, false)], [1, 0], Ready, [0], {0})
  {
    KeepsAll(One([Nth(1, Pending, 0, false), Nth(0, Finished(1), 0, false)], [1, 0], Ready, [0], {0}), Detach(0));
  }

  lemma Twice6()
    ensures var s := One([Nth(1, Pending, 0, true), Nth(0, Finished(1), 0, false)], [1, 0], Ready, [0], {0});
      && Enabled(s, Take(0)) && Disciplined(s, Take(0))
      && Apply(s, Take(0)).0
          == One([Nth(0, Finished(1), 0, false), Nth(1, Running(0), 1, true)], [1, 0], Working(1), [0, 1], {0})
  {
    var list := [Nth(1, Pending, 0, true), Nth(0, Finished(1), 0, false)];
    assert FirstPending(list) == 0 && list[..0] == [] && list[1..] == [Nth(0, Finished(1), 0, false)];
    assert [0] + [1] == [0, 1];
  }

  lemma FindSecond(a: Entry, b: Entry)
    requires a.id != b.id
    ensures Find([a, b], b.id) == 1
  {
    assert [a, b][1..] == [b];
  }

  lemma KeepsTask(s: Pool, w: nat, r: int, e: Entry)
    requires Enabled(s, Finish(w, r)) && e in Finished1(s, w, r).list && !e.joined && !e.detached
    requires s.list[Find(s.list, s.workers[w].entry)].task == e.task
    ensures Apply(s, Finish(w, r)).0 == Finished1(s, w, r)
  {
    hide RemoveTask, Find;
    assert !Deletable(Finished1(s, w, r).list, e.task);
  }

  lemma Twice7()
    ensures var s := One([Nth(0, Finished(1), 0, false), Nth(1, Running(0), 1, true)], [1, 0], Working(1), [0, 1], {0});
      && Enabled(s, Finish(0, 2)) && Disciplined(s, Finish(0, 2)) && !Drops(s, Finish(0, 2))
      && Apply(s, Finish(0, 2)).0
          == One([Nth(0, Finished(1), 0, false), Nth(1, Finished(2), 1, true)], [1, 0], Ready, [0, 1], {0, 1})
  {
    hide Find, RemoveTask, Apply, Drops;
    var (a, b) := (Nth(0, Finished(1), 0, false), Nth(1, Running(0), 1, true));
    var s := One([a, b], [1, 0], Working(1), [0, 1], {0});
    FindSecond(a, b);
    var next := [a, Nth(1, Finished(2), 1, true)];
    assert [a, b][1 := next[1]] == next && Finished1(s, 0, 2).list == next;
    assert next[0] in next;
    KeepsTask(s, 0, 2, a);
    KeepsAll(s, Finish(0, 2));
  }

  /** The run from its second push on. */
  lemma RunAgain()
    ensures var (s, acts) := (One([Nth(0, Finished(1), 0, false)], [0], Ready, [0], {0}),
                              [Push(0)] + ([Detach(0)] + ([Take(0)] + ([Finish(0, 2)] + []))));
      && Legal(s, acts)
      && End(s, acts)
        == One([Nth(0, Finished(1), 0, false), Nth(1, Finished(2), 1, true)], [1, 0], Ready, [0, 1], {0, 1})
  {
    Twice4();
    Twice5();
    Twice6();
    Twice7();
    hide Apply, Enabled, Disciplined, One, Nth;
    var last := [Nth(0, Finished(1), 0, false), Nth(1, Running(0), 1, true)];
    Then(One(last, [1, 0], Working(1), [0, 1], {0}), Finish(0, 2), []);
    var acts := [Finish(0, 2)] + [];
    Then(One([Nth(1, Pending, 0, true), Nth(0, Finished(1), 0, false)], [1, 0], Ready, [0], {0}), Take(0), acts);
    acts := [Take(0)] + acts;
    Then(One([Nth(1, Pending, 0, false), Nth(0, Finished(1), 0, false)], [1, 0], Ready, [0], {0}), Detach(0), acts);
    acts := [Detach(0)] + acts;
    Then(One([Nth(0, Finished(1), 0, false)], [0], Ready, [0], {0}), Push(0), acts);
  }

  lemma RunTwice() returns (s: Pool)
    ensures Legal(NewPool(1).value, TWICE) && s == End(NewPool(1).value, TWICE)
    ensures s == One([Nth(0, Finished(1), 0, false), Nth(1, Finished(2), 1, true)], [1, 0], Ready, [0, 1], {0, 1})
  {
    hide Apply, Enabled, Disciplined, One, Nth;
    Twice1();
    Twice2();
    Twice3();
    RunAgain();
    s := One([Nth(0, Finished(1), 0, false), Nth(1, Finished(2), 1, true)], [1, 0], Ready, [0, 1], {0, 1});
    var acts := [Push(0)] + ([Detach(0)] + ([Take(0)] + ([Finish(0, 2)] + [])));
    Then(One([Nth(0, Running(0), 0, false)], [0], Working(0), [0], {}), Finish(0, 1), acts);
    acts := [Finish(0, 1)] + acts;
    Then(One([Nth(0, Pending, 0, false)], [0], Ready, [], {}), Take(0), acts);
    acts := [Take(0)] + acts;
    var s0 := NewPool(1).value;
    Fresh(s0);
    Then(Apply(s0, NewTask(0)).0, Push(0), acts);
    acts := [Push(0)] + acts;
    Then(s0, NewTask(0), acts);
    assert [NewTask(0)] + acts == TWICE;
  }

  lemma Fresh(s: Pool)
    ensures Disciplined(s, NewTask(0))
  {
  }

  lemma StuckState(s: Pool)
    requires s == One([Nth(0, Finished(1), 0, false), Nth(1, Finished(2), 1, true)], [1, 0], Ready, [0, 1], {0, 1})
    ensures s.list
      == [Entry(0, 0, Finished(1), 0, false, false, Nobody), Entry(1, 0, Finished(2), 1, false, true, Nobody)]
    ensures s.tasksCnt == 2 && !Disciplined(s, Delete(0)) && !Disciplined(s, Detach(0))
  {
    assert s.list[1] in s.list;
  }

  /** However it goes on, the pool is never deleted. */
  lemma DetachedTwice() returns (s: Pool)
    ensures Legal(NewPool(1).value, TWICE) && s == End(NewPool(1).value, TWICE) && Reachable(s)
    ensures s.list
      == [Entry(0, 0, Finished(1), 0, false, false, Nobody), Entry(1, 0, Finished(2), 1, false, true, Nobody)]
    ensures s.tasksCnt == 2 && !Disciplined(s, Delete(0)) && !Disciplined(s, Detach(0))
    ensures forall acts | Legal(s, acts) && Enabled(End(s, acts), PoolDelete) ::
      Apply(End(s, acts), PoolDelete).1 == Fails(HasTasks)
  {
    s := RunTwice();
    StuckState(s);
    assert NewPool(1).Some?;
    hide Legal, End, Apply, Disciplined, Enabled, Inv, OneDetached;
    ReachableOneDetached(s);
    assert s.list[1] in s.list;
    forall acts | Legal(s, acts) && Enabled(End(s, acts), PoolDelete)
      ensures Apply(End(s, acts), PoolDelete).1 == Fails(HasTasks)
    {
      NeverFreed(s, acts, s.list[1]);
    }
  }
}
