/**
 * What clients of the pool get over whole runs: the result of a join, the effect of a delete, and the
 * end of the pool itself.
 */
module PoolClients {
  import opened PoolModel
  import opened PoolInvariant
  import opened PoolRuns

  // ---------------------------------------------------------------- where entries come from

  predicate Finishes(s: Pool, a: Action, id: nat) {
    a.Finish? && a.w < |s.workers| && s.workers[a.w] == Working(id)
  }

  /** How an entry d of the list may look after step a. */
  predicate Became(s: Pool, a: Action, d: Entry, e: Entry) {
    && d.id == e.id && d.task == e.task
    && (Finishes(s, a, d.id) ==> e.phase == Finished(a.r))
    && (!Finishes(s, a, d.id) ==> d.phase == e.phase || (d.phase.Pending? && e.phase.Running?))
  }

  /** A step adds one pending entry at most, and changes the phase of an entry only by taking or finishing it. */
  lemma EntryOrigin(s: Pool, a: Action, e: Entry) returns (d: Entry)
    requires Inv(s) && Enabled(s, a) && e in Apply(s, a).0.list
    ensures (a.Push? && e.id == s.nextId && e.phase.Pending?) || (d in s.list && Became(s, a, d, e))
  {
    d := e;
    match a
    case Finish(w, r) => d := FinishOrigin(s, w, r, e);
    case Take(w) =>
      hide HistoryOk, PushesOk, ClientsOk, CountsOk, SleepOk, EntriesOk, WorkersOk;
      TakeOrder(s, w);
      d := if e in s.list[1..] then e else s.list[0];
    case _ => hide Inv; d := FlagOrigin(s, a, e);
  }

  lemma FinishOrigin(s: Pool, w: nat, r: int, e: Entry) returns (d: Entry)
    requires Inv(s) && Enabled(s, Finish(w, r)) && e in Apply(s, Finish(w, r)).0.list
    ensures d in s.list && Became(s, Finish(w, r), d, e)
  {
    hide HistoryOk, PushesOk, ClientsOk, CountsOk, SleepOk, EntriesOk, Count, FirstPending;
    RunningEntry(s, w);
    var k := Find(s.list, s.workers[w].entry);
    var list := Finished1(s, w, r).list;
    assert e in list;
    var i :| 0 <= i < |list| && list[i] == e;
    d := s.list[i];
    if i != k { assert (i < k ==> Before(s.list[i], s.list[k])) && (k < i ==> Before(s.list[k], s.list[i])); }
  }

  /** Every other step leaves the phases of the entries it keeps. */
  lemma FlagOrigin(s: Pool, a: Action, e: Entry) returns (d: Entry)
    requires Enabled(s, a) && e in Apply(s, a).0.list && !a.Take? && !a.Finish?
    ensures (a.Push? && e.id == s.nextId && e.phase.Pending?) || (d in s.list && Became(s, a, d, e))
  {
    d := e;
    if a.Detach? && s.pushes[a.t] != [] {
      var k := Latest(s, a.t);
      var list := s.list[k := s.list[k].(detached := true)];
      var i :| 0 <= i < |list| && list[i] == e;
      d := s.list[i];
    } else if a.Join? || a.JoinReturn? || a.JoinTimeOut? {
      var i :| 0 <= i < |s.list| && Apply(s, a).0.list[i] == e;
      d := s.list[i];
    }
  }

  // ---------------------------------------------------------------- results

  /** The results returned so far, by push: what each worker passed to its Finish. */
  ghost function Record(s: Pool, a: Action, got: map<nat, int>): map<nat, int> {
    if a.Finish? && a.w < |s.workers| && s.workers[a.w].Working? then got[s.workers[a.w].entry := a.r] else got
  }

  ghost function Results(s: Pool, acts: seq<Action>, got: map<nat, int>): map<nat, int>
    requires Legal(s, acts)
    decreases |acts|
  {
    if acts == [] then got else Results(Apply(s, acts[0]).0, acts[1..], Record(s, acts[0], got))
  }

  ghost predicate Recorded(s: Pool, got: map<nat, int>) {
    && got.Keys == s.finished
    && forall e | e in s.list && e.phase.Finished? :: e.id in got && got[e.id] == e.phase.result
  }

  lemma FinishedBy(s: Pool, a: Action)
    requires Inv(s) && Enabled(s, a)
    ensures Apply(s, a).0.finished == s.finished + if a.Finish? then {s.workers[a.w].entry} else {}
    ensures a.Finish? ==> s.workers[a.w].entry !in s.finished
  {
    hide Inv, Apply;
    if a.Finish? {
      RunningEntry(s, a.w);
      FinishRecords(s, a.w, a.r);
    } else {
      NothingFinished(s, a);
    }
  }

  lemma FinishRecords(s: Pool, w: nat, r: int)
    requires Enabled(s, Finish(w, r))
    ensures Apply(s, Finish(w, r)).0.finished == s.finished + {s.workers[w].entry}
  {
  }

  lemma NothingFinished(s: Pool, a: Action)
    requires Enabled(s, a) && !a.Finish?
    ensures Apply(s, a).0.finished == s.finished
  {
  }

  lemma RecordStep(s: Pool, a: Action, got: map<nat, int>)
    requires Inv(s) && Enabled(s, a) && Recorded(s, got)
    ensures Recorded(Apply(s, a).0, Record(s, a, got))
    ensures forall id | id in got :: id in Record(s, a, got) && Record(s, a, got)[id] == got[id]
  {
    hide Inv, Apply;
    FinishedBy(s, a);
    forall e | e in Apply(s, a).0.list && e.phase.Finished?
      ensures e.id in Record(s, a, got) && Record(s, a, got)[e.id] == e.phase.result
    {
      var d := EntryOrigin(s, a, e);
    }
  }

  /** Every result is recorded, and once recorded is never replaced. */
  lemma {:induction false} ResultsExact(s: Pool, acts: seq<Action>, got: map<nat, int>)
    requires Inv(s) && Legal(s, acts) && Recorded(s, got)
    ensures Recorded(End(s, acts), Results(s, acts, got))
    ensures forall id | id in got :: id in Results(s, acts, got) && Results(s, acts, got)[id] == got[id]
    decreases |acts|
  {
    hide Inv, Apply, Enabled, Disciplined, Drops, Record, Recorded;
    if acts != [] {
      RecordStep(s, acts[0], got);
      StepInv(s, acts[0]);
      ResultsExact(Apply(s, acts[0]).0, acts[1..], Record(s, acts[0], got));
    }
  }

  /**
   * A join that returns a result returns that of the latest push of its task: the value its function
   * returned in the one run it had, whatever else happened in between.
   */
  lemma JoinReturnsLatest(n: int, acts: seq<Action>, a: Action)
    requires NewPool(n).Some? && Legal(NewPool(n).value, acts)
    requires Enabled(End(NewPool(n).value, acts), a) && (a.Join? || a.JoinReturn?)
    ensures var s := End(NewPool(n).value, acts);
      var got := Results(NewPool(n).value, acts, map[]);
      && (a.JoinReturn? ==> a.id in got && Apply(s, a).1 == Value(got[a.id]))
      && (a.Join? && Apply(s, a).1.Value? ==>
            && s.pushes[a.t] != [] && s.pushes[a.t][0] in got && Apply(s, a).1 == Value(got[s.pushes[a.t][0]])
            && forall id | id in s.pushes[a.t] :: id <= s.pushes[a.t][0])
  {
    hide Inv, Legal, End, Results;
    NewPoolInv(n);
    RunInv(NewPool(n).value, acts);
    ResultsExact(NewPool(n).value, acts, map[]);
    var s := End(NewPool(n).value, acts);
    if a.Join? && s.pushes[a.t] != [] {
      LatestEntry(s, a.t);
      NewestFirst(s, a.t);
    }
  }

  lemma NewestFirst(s: Pool, t: nat)
    requires Inv(s) && Pushed(s, t)
    ensures forall id | id in s.pushes[t] :: id <= s.pushes[t][0]
  {
    assert TaskOk(s.list, t, s.pushes[t]);
  }

  // ---------------------------------------------------------------- blocked joins

  /** A joiner has not returned from its wait on entry id. */
  predicate Joining(s: Pool, id: nat) {
    var k := Find(s.list, id);
    k < |s.list| && !s.list[k].waiter.Nobody?
  }

  predicate Leaves(a: Action, id: nat) { a == JoinReturn(id) || a == JoinTimeOut(id) }

  lemma JoiningMember(list: seq<Entry>, d: Entry, e: Entry)
    requires Ordered(list) && e in list && e.id == d.id
    ensures Find(list, d.id) < |list| && list[Find(list, d.id)] == e
  {
    FindMember(list, e);
  }

  lemma StepOrdered(s: Pool, a: Action)
    requires Inv(s) && Enabled(s, a) && Disciplined(s, a) && !Drops(s, a)
    ensures Ordered(Apply(s, a).0.list)
  {
    hide Enabled, Disciplined, Apply, Drops;
    StepInv(s, a);
  }

  lemma JoiningStep(s: Pool, a: Action, id: nat)
    requires Inv(s) && Enabled(s, a) && Disciplined(s, a) && !Drops(s, a) && Joining(s, id) && !Leaves(a, id)
    ensures Joining(Apply(s, a).0, id)
  {
    hide Inv, Ordered, Apply, Enabled, Disciplined, Drops;
    var k := Find(s.list, id);
    StepOrdered(s, a);
    if a.Take? {
      TakeKeeps(s, a.w, k);
    } else if a.Finish? {
      var e := FinishKeeps(s, a.w, a.r, k);
      JoiningMember(Apply(s, a).0.list, s.list[k], e);
    } else if a.Join? || a.JoinReturn? || a.JoinTimeOut? {
      TouchKeeps(s, a, id);
    } else {
      if a.Detach? {
        DetachKeeps(s, a, a.t, k);
      } else if a.Delete? {
        DeleteKeeps(s, a.t, k);
      } else {
        EntryKept(s, a, k);
      }
      JoiningMember(Apply(s, a).0.list, s.list[k], s.list[k]);
    }
  }

  lemma TouchKeeps(s: Pool, a: Action, id: nat)
    requires Enabled(s, a) && Joining(s, id) && !Leaves(a, id) && (a.Join? || a.JoinReturn? || a.JoinTimeOut?)
    requires Disciplined(s, a)
    ensures Joining(Apply(s, a).0, id)
  {
    hide Apply, Enabled, Disciplined, Find;
    var k, e := TouchEffect(s, a);
    if Apply(s, a).0.list != s.list { FindSame(s.list, s.list[k := e], id); }
  }

  /** They change at most one entry, and not one on which another join waits. */
  lemma TouchEffect(s: Pool, a: Action) returns (k: nat, e: Entry)
    requires Enabled(s, a) && Disciplined(s, a) && (a.Join? || a.JoinReturn? || a.JoinTimeOut?)
    ensures Apply(s, a).0.list == s.list
      || (k < |s.list| && Apply(s, a).0.list == s.list[k := e] && e.id == s.list[k].id)
    ensures Apply(s, a).0.list != s.list ==> forall id | Joining(s, id) && !Leaves(a, id) :: Find(s.list, id) != k
  {
    var list := Apply(s, a).0.list;
    if a.Join? { k := if Pushed(s, a.t) then Latest(s, a.t) else 0; } else { k := Find(s.list, a.id); }
    e := if k < |list| then list[k] else Entry(0, 0, Pending, 0, false, false, Nobody);
  }

  lemma EntryKept(s: Pool, a: Action, k: nat)
    requires Enabled(s, a) && Disciplined(s, a) && k < |s.list| && !s.list[k].waiter.Nobody?
    requires !a.Take? && !a.Join? && !a.JoinReturn? && !a.JoinTimeOut? && !Frees(a)
    ensures s.list[k] in Apply(s, a).0.list
  {
    assert s.list[k] in s.list;
  }

  /** A delete that drops no work frees no task with a joiner. */
  lemma DeleteKeeps(s: Pool, t: nat, k: nat)
    requires Inv(s) && Enabled(s, Delete(t)) && !Drops(s, Delete(t)) && k < |s.list| && !s.list[k].waiter.Nobody?
    ensures s.list[k] in Apply(s, Delete(t)).0.list
  {
    hide Inv, Find;
    assert s.list[k] in s.list;
    if s.list[k].task == t { RemovedEntry(s, t, k); }
  }

  lemma TakeKeeps(s: Pool, w: nat, k: nat)
    requires Inv(s) && Enabled(s, Take(w)) && k < |s.list| && !s.list[k].waiter.Nobody?
    ensures Joining(Apply(s, Take(w)).0, s.list[k].id)
  {
    hide HistoryOk, PushesOk, CountsOk, SleepOk, EntriesOk, WorkersOk;
    TakeOrder(s, w);
    var list := Apply(s, Take(w)).0.list;
    JoiningMember(list, s.list[k], if k == 0 then list[|list| - 1] else list[k - 1]);
  }

  lemma DetachKeeps(s: Pool, a: Action, t: nat, k: nat)
    requires Inv(s) && Enabled(s, a) && a == Detach(t) && Disciplined(s, a) && k < |s.list| && !s.list[k].waiter.Nobody?
    ensures s.list[k] in Apply(s, a).0.list
  {
    assert s.list[k] in s.list && s.list[k].task != t;
    if s.pushes[t] != [] {
      LatestEntry(s, t);
      hide Inv;
      var j := Latest(s, t);
      var list := s.list[j := s.list[j].(detached := true)];
      assert list[k] == s.list[k] && s.list[k] in list;
    }
  }

  lemma FinishKeeps(s: Pool, w: nat, r: int, k: nat) returns (e: Entry)
    requires Inv(s) && Enabled(s, Finish(w, r)) && k < |s.list| && !s.list[k].waiter.Nobody?
    ensures e in Apply(s, Finish(w, r)).0.list && e.id == s.list[k].id && !e.waiter.Nobody?
  {
    hide HistoryOk, PushesOk, CountsOk, SleepOk, EntriesOk, WorkersOk, Ordered;
    var j := Find(s.list, s.workers[w].entry);
    e := Finished1(s, w, r).list[k];
    assert e in Finished1(s, w, r).list;
    JoinedIsAttached(s.list, k);
  }

  /** Until it returns, a joiner's entry stays in the list over any run, and wakes it exactly when it has finished. */
  lemma {:induction false} JoinerIsServed(s: Pool, acts: seq<Action>, id: nat)
    requires Inv(s) && Legal(s, acts) && Joining(s, id)
    requires forall i | 0 <= i < |acts| :: !Leaves(acts[i], id)
    ensures var t := End(s, acts);
      && Joining(t, id)
      && (Enabled(t, JoinReturn(id)) <==> t.list[Find(t.list, id)].phase.Finished?)
      && (Enabled(t, JoinReturn(id)) <==> id in t.finished)
    decreases |acts|
  {
    hide Inv, Apply, Disciplined;
    if acts == [] {
      JoinerAwake(s, id);
    } else {
      JoiningStep(s, acts[0], id);
      StepInv(s, acts[0]);
      JoinerIsServed(Apply(s, acts[0]).0, acts[1..], id);
    }
  }

  lemma JoinerAwake(s: Pool, id: nat)
    requires Inv(s) && Joining(s, id)
    ensures Enabled(s, JoinReturn(id)) <==> s.list[Find(s.list, id)].phase.Finished?
    ensures Enabled(s, JoinReturn(id)) <==> id in s.finished
  {
    hide HistoryOk, PushesOk, CountsOk, SleepOk, WorkersOk, Ordered;
    assert JoinOk(s.list[Find(s.list, id)]);
    assert EntryOk(s.list[Find(s.list, id)], s.nextId, s.executed, s.finished);
  }

  /**
   * A join that blocks waits for the push that is the latest at its call. However the run goes on until it leaves, it
   * may return exactly when that push has finished, and returns the value of that push, later ones notwithstanding.
   */
  lemma BlockedJoinReturnsItsPush(n: int, before: seq<Action>, t: nat, timeout: Timeout, after: seq<Action>)
    requires NewPool(n).Some? && Legal(NewPool(n).value, before)
    requires var (s, a) := (End(NewPool(n).value, before), Join(t, timeout));
      && Enabled(s, a) && Disciplined(s, a) && Apply(s, a).1 == Blocks && Pushed(s, t)
      && Legal(Apply(s, a).0, after) && forall i | 0 <= i < |after| :: !Leaves(after[i], s.pushes[t][0])
    ensures Legal(NewPool(n).value, before + ([Join(t, timeout)] + after))
    ensures var s := End(NewPool(n).value, before);
      var (u, id) := (End(Apply(s, Join(t, timeout)).0, after), s.pushes[t][0]);
      var got := Results(NewPool(n).value, before + ([Join(t, timeout)] + after), map[]);
      && (forall x | x in s.pushes[t] :: x <= id)
      && (Enabled(u, JoinReturn(id)) <==> id in u.finished)
      && (Enabled(u, JoinReturn(id)) ==> id in got && Apply(u, JoinReturn(id)).1 == Value(got[id]))
  {
    var (s0, a) := (NewPool(n).value, Join(t, timeout));
    var s := End(s0, before);
    NewPoolInv(n);
    RunInv(s0, before);
    NewestFirst(s, t);
    StartsWaiting(s, t, timeout);
    StepInv(s, a);
    JoinerIsServed(Apply(s, a).0, after, s.pushes[t][0]);
    hide Inv, Apply, Enabled, Disciplined, Drops, Results, Joining, Leaves;
    NotFreed(s, a);
    Then(s, a, after);
    Concat(s0, before, [a] + after);
    if Enabled(End(Apply(s, a).0, after), JoinReturn(s.pushes[t][0])) {
      JoinReturnsLatest(n, before + ([a] + after), JoinReturn(s.pushes[t][0]));
    }
  }

  lemma NotFreed(s: Pool, a: Action)
    requires Enabled(s, a) && !Frees(a)
    ensures !Drops(s, a)
  {
  }

  lemma StartsWaiting(s: Pool, t: nat, timeout: Timeout)
    requires Inv(s) && Enabled(s, Join(t, timeout)) && Apply(s, Join(t, timeout)).1 == Blocks && Pushed(s, t)
    ensures Joining(Apply(s, Join(t, timeout)).0, s.pushes[t][0])
  {
    LatestEntry(s, t);
    hide Inv;
    FindSame(s.list, Apply(s, Join(t, timeout)).0.list, s.pushes[t][0]);
  }

  // ---------------------------------------------------------------- the end of the pool

  predicate ByShutdown(a: Action) { a.Quit? || a.PoolDeleteWake? }

  ghost function Rest(s: Pool): nat { 2 * Count(s.workers, IsLive) + if s.deleter.Signalled? then 1 else 0 }

  lemma ShutdownStep(s: Pool, a: Action)
    requires Inv(s) && Enabled(s, a) && ByShutdown(a)
    ensures Rest(Apply(s, a).0) < Rest(s) && Apply(s, a).0.isActive == s.isActive
  {
    if a.Quit? { CountUpdate(s.workers, a.w, Exited, IsLive); }
  }

  lemma {:induction false} ShutdownIsFinite(s: Pool, acts: seq<Action>)
    requires Inv(s) && Legal(s, acts) && forall i | 0 <= i < |acts| :: ByShutdown(acts[i])
    ensures |acts| + Rest(End(s, acts)) <= Rest(s) && End(s, acts).isActive == s.isActive
    decreases |acts|
  {
    hide Inv, Apply, Enabled, Disciplined, Drops, Rest;
    if acts != [] {
      ShutdownStep(s, acts[0]);
      StepInv(s, acts[0]);
      ShutdownIsFinite(Apply(s, acts[0]).0, acts[1..]);
    }
  }

  /** thread_pool_delete has returned only when no worker is left. */
  lemma ReturnsAfterWorkers(s: Pool)
    requires Reachable(s) && s.deleter.Returned?
    ensures s.threadsCnt == 0 && s.list == [] && forall w | 0 <= w < |s.workers| :: s.workers[w].Exited?
  {
    ReachableInv(s);
    CountZero(s.workers, IsLive);
    assert forall w | 0 <= w < |s.workers| :: !IsLive(s.workers[w]);
  }

  /**
   * A pool delete that finds no tasks makes every worker exit, however they are scheduled, and then returns:
   * only so many steps are possible, and it has returned when none is left. One that finds tasks is refused.
   */
  lemma PoolDeleteReturns(s: Pool, acts: seq<Action>)
    requires Reachable(s) && Enabled(s, PoolDelete)
    ensures Apply(s, PoolDelete).1 == (if s.list == [] then Ok else Fails(HasTasks))
    ensures var t := Apply(s, PoolDelete).0;
      s.list == [] && Legal(t, acts) && (forall i | 0 <= i < |acts| :: ByShutdown(acts[i])) ==>
        && |acts| <= 2 * s.threadsCnt
        && ((forall a | ByShutdown(a) :: !Enabled(End(t, acts), a)) ==>
              && End(t, acts).deleter.Returned? && End(t, acts).threadsCnt == 0
              && forall w | 0 <= w < |s.workers| :: w < |End(t, acts).workers| && End(t, acts).workers[w].Exited?)
  {
    ReachableInv(s);
    var t := Apply(s, PoolDelete).0;
    if s.list == [] && Legal(t, acts) && (forall i | 0 <= i < |acts| :: ByShutdown(acts[i])) {
      StepInv(s, PoolDelete);
      BroadcastCounts(s.workers);
      ShutdownIsFinite(t, acts);
      RunInv(t, acts);
      SameWorkers(t, acts);
      var u := End(t, acts);
      if forall a | ByShutdown(a) :: !Enabled(u, a) { AllQuit(u); }
    }
  }

  lemma {:induction false} SameWorkers(s: Pool, acts: seq<Action>)
    requires Legal(s, acts) && forall i | 0 <= i < |acts| :: ByShutdown(acts[i])
    ensures |End(s, acts).workers| == |s.workers|
    decreases |acts|
  {
    if acts != [] { SameWorkers(Apply(s, acts[0]).0, acts[1..]); }
  }

  lemma AllQuit(u: Pool)
    requires Inv(u) && !u.isActive && forall a | ByShutdown(a) :: !Enabled(u, a)
    ensures u.deleter.Returned? && u.threadsCnt == 0 && forall w | 0 <= w < |u.workers| :: u.workers[w].Exited?
  {
    hide EntriesOk, HistoryOk, PushesOk, ClientsOk, Ordered;
    forall w | 0 <= w < |u.workers| ensures u.workers[w].Exited? { assert !Enabled(u, Quit(w)); }
    CountZero(u.workers, IsLive);
    assert !Enabled(u, PoolDeleteWake);
  }
}
