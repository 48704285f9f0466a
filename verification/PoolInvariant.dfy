/**
 * The invariant of the pool machine, and its preservation by every disciplined step.
 */
module PoolInvariant {
  import opened PoolModel

  // ---------------------------------------------------------------- counting

  function Count<T>(s: seq<T>, p: T -> bool): nat {
    if s == [] then 0 else (if p(s[0]) then 1 else 0) + Count(s[1..], p)
  }

  predicate IsWorking(w: Worker) { w.Working? }

  predicate IsLive(w: Worker) { !w.Exited? }

  lemma {:induction false} CountConcat<T>(a: seq<T>, b: seq<T>, p: T -> bool)
    ensures Count(a + b, p) == Count(a, p) + Count(b, p)
  {
    if a == [] {
      assert a + b == b;
    } else {
      assert (a + b)[1..] == a[1..] + b;
      CountConcat(a[1..], b, p);
    }
  }

  lemma {:induction false} CountUpdate<T>(s: seq<T>, k: nat, x: T, p: T -> bool)
    requires k < |s|
    ensures Count(s[k := x], p) == Count(s, p) - (if p(s[k]) then 1 else 0) + (if p(x) then 1 else 0)
  {
    if k == 0 {
      assert s[0 := x][1..] == s[1..];
    } else {
      assert s[k := x][1..] == s[1..][k - 1 := x];
      CountUpdate(s[1..], k - 1, x, p);
    }
  }

  lemma {:induction false} CountSame<T>(a: seq<T>, b: seq<T>, p: T -> bool)
    requires |a| == |b| && forall i | 0 <= i < |a| :: p(a[i]) == p(b[i])
    ensures Count(a, p) == Count(b, p)
  {
    if a != [] {
      assert forall i | 0 <= i < |a| - 1 :: a[1..][i] == a[i + 1] && b[1..][i] == b[i + 1];
      CountSame(a[1..], b[1..], p);
    }
  }

  lemma {:induction false} CountZero<T>(s: seq<T>, p: T -> bool)
    ensures Count(s, p) == 0 <==> forall i | 0 <= i < |s| :: !p(s[i])
  {
    if s != [] {
      CountZero(s[1..], p);
      assert forall i | 0 <= i < |s| - 1 :: s[1..][i] == s[i + 1];
      assert forall i | 0 < i < |s| :: s[i] == s[1..][i - 1];
    }
  }

  /** The number of entries of task t. */
  function CountTask(list: seq<Entry>, t: nat): nat {
    if list == [] then 0 else (if list[0].task == t then 1 else 0) + CountTask(list[1..], t)
  }

  lemma {:induction false} NoEntries(list: seq<Entry>, t: nat)
    requires CountTask(list, t) == 0
    ensures RemoveTask(list, t) == list && forall e | e in list :: e.task != t
  {
    if list != [] {
      NoEntries(list[1..], t);
      assert list == [list[0]] + list[1..];
    }
  }

  // ---------------------------------------------------------------- invariant

  /**
   * The order of the list: pending entries first, newest push first; then the started ones, in the
   * order they were started.
   */
  ghost predicate Before(a: Entry, b: Entry) {
    && a.id != b.id
    && (b.phase.Pending? ==> a.phase.Pending? && a.id > b.id)
    && (!a.phase.Pending? && !b.phase.Pending? ==> a.start < b.start)
  }

  ghost predicate Ordered(list: seq<Entry>) {
    forall i, j | 0 <= i < j < |list| :: Before(list[i], list[j])
  }

  ghost predicate EntryOk(e: Entry, nextId: nat, executed: seq<nat>, finished: set<nat>) {
    && e.id < nextId
    && (e.phase.Pending? ==> e.id !in executed)
    && (!e.phase.Pending? ==> e.start < |executed| && executed[e.start] == e.id)
    && (e.phase.Finished? <==> e.id in finished)
  }

  ghost predicate EntriesOk(list: seq<Entry>, nextId: nat, executed: seq<nat>, finished: set<nat>) {
    forall i | 0 <= i < |list| :: EntryOk(list[i], nextId, executed, finished)
  }

  /** Every push ran at most once, and every push no longer in the list ran to its end. */
  ghost predicate HistoryOk(list: seq<Entry>, nextId: nat, executed: seq<nat>, finished: set<nat>) {
    && (forall i, j | 0 <= i < j < |executed| :: executed[i] != executed[j])
    && (forall i | 0 <= i < |executed| :: executed[i] < nextId)
    && (forall x | x in finished :: x in executed)
    && (forall x: nat | x < nextId :: x in finished || Find(list, x) < |list|)
  }

  /** Running entries and running workers are in bijection. */
  ghost predicate WorkersOk(list: seq<Entry>, ws: seq<Worker>) {
    && (forall i | 0 <= i < |list| && list[i].phase.Running? ::
          list[i].phase.worker < |ws| && ws[list[i].phase.worker] == Working(list[i].id))
    && (forall w | 0 <= w < |ws| && ws[w].Working? ::
          Find(list, ws[w].entry) < |list| && list[Find(list, ws[w].entry)].phase == Running(w))
  }

  ghost predicate CountsOk(s: Pool) {
    && s.activeCnt == Count(s.workers, IsWorking)
    && s.threadsCnt == Count(s.workers, IsLive)
    && s.threadsCnt <= s.maxThreads && 0 < s.maxThreads <= TPOOL_MAX_THREADS
    && s.tasksCnt == |s.list| <= TPOOL_MAX_TASKS
  }

  ghost predicate PushesOk(list: seq<Entry>, pushes: map<nat, seq<nat>>) {
    && (forall i | 0 <= i < |list| :: list[i].task in pushes && list[i].id in pushes[list[i].task])
    && (forall t | t in pushes :: |pushes[t]| == CountTask(list, t) && TaskOk(list, t, pushes[t]))
  }

  /** Entry id is in the list and is a push of t. */
  predicate Has(list: seq<Entry>, id: nat, t: nat) { Find(list, id) < |list| && list[Find(list, id)].task == t }

  /** A task's own list is its pushes, newest first. */
  ghost predicate TaskOk(list: seq<Entry>, t: nat, ids: seq<nat>) {
    && (forall i | 0 <= i < |ids| :: Has(list, ids[i], t))
    && (forall i, j | 0 <= i < j < |ids| :: ids[i] > ids[j])
  }

  /** No joiner sleeps on a finished entry. */
  ghost predicate JoinOk(e: Entry) {
    && (!e.waiter.Nobody? ==> e.joined)
    && (e.waiter.Blocked? ==> !e.phase.Finished?)
    && (e.waiter.Woken? ==> e.phase.Finished?)
  }

  ghost predicate ClientsOk(list: seq<Entry>) {
    && (forall i | 0 <= i < |list| :: JoinOk(list[i]))
    && (forall i, j | 0 <= i < |list| && 0 <= j < |list| ::
          list[i].detached && list[j].task == list[i].task ==> list[j].waiter.Nobody?)
  }

  predicate SomePending(list: seq<Entry>) { FirstPending(list) < |list| }

  /** While the pool is active nobody sleeps over a pending entry; while it is being deleted, nobody sleeps. */
  ghost predicate SleepOk(s: Pool) {
    if s.isActive then
      && s.deleter.Absent?
      && (forall w | 0 <= w < |s.workers| :: !s.workers[w].Exited?)
      && (SomePending(s.list) ==> s.threadsCnt > 0 && forall w | 0 <= w < |s.workers| :: !s.workers[w].Waiting?)
    else
      && s.list == []
      && (forall w | 0 <= w < |s.workers| :: !s.workers[w].Waiting?)
      && !s.deleter.Absent?
      && (s.deleter.Sleeping? ==> s.threadsCnt > 0)
      && (s.deleter.Returned? ==> s.threadsCnt == 0)
  }

  ghost predicate Inv(s: Pool) {
    && Ordered(s.list)
    && EntriesOk(s.list, s.nextId, s.executed, s.finished)
    && HistoryOk(s.list, s.nextId, s.executed, s.finished)
    && WorkersOk(s.list, s.workers)
    && CountsOk(s)
    && PushesOk(s.list, s.pushes)
    && ClientsOk(s.list)
    && SleepOk(s)
  }

  lemma NewPoolInv(maxThreads: int)
    ensures NewPool(maxThreads).Some? <==> 0 < maxThreads <= TPOOL_MAX_THREADS
    ensures NewPool(maxThreads).Some? ==> Inv(NewPool(maxThreads).value)
  {
  }

  // ---------------------------------------------------------------- finding entries

  lemma FindAt(list: seq<Entry>, k: nat)
    requires Ordered(list) && k < |list|
    ensures Find(list, list[k].id) == k
  {
    var j := Find(list, list[k].id);
    assert j < k ==> Before(list[j], list[k]);
  }

  /** get_task returns the head of the list or nothing. */
  lemma GetTaskIsHead(list: seq<Entry>)
    requires Ordered(list)
    ensures FirstPending(list) == 0 || FirstPending(list) == |list|
    ensures FirstPending(list) == |list| <==> forall i | 0 <= i < |list| :: !list[i].phase.Pending?
  {
    var k := FirstPending(list);
    assert 0 < k < |list| ==> Before(list[0], list[k]);
  }

  // ---------------------------------------------------------------- changing the flags of one entry

  /** The two entries differ only in what joins and detaches record. */
  predicate SameRun(a: Entry, b: Entry) {
    a.id == b.id && a.task == b.task && a.phase == b.phase && a.start == b.start
  }

  lemma FindSame(a: seq<Entry>, b: seq<Entry>, id: nat)
    requires |a| == |b| && forall i | 0 <= i < |a| :: a[i].id == b[i].id
    ensures Find(a, id) == Find(b, id)
  {
    var i, j := Find(a, id), Find(b, id);
    assert i < |a| ==> b[i].id == id;
    assert j < |b| ==> a[j].id == id;
  }

  lemma {:induction false} CountTaskSame(a: seq<Entry>, b: seq<Entry>, t: nat)
    requires |a| == |b| && forall i | 0 <= i < |a| :: a[i].task == b[i].task
    ensures CountTask(a, t) == CountTask(b, t)
  {
    if a != [] {
      assert forall i | 0 <= i < |a| - 1 :: a[1..][i] == a[i + 1] && b[1..][i] == b[i + 1];
      CountTaskSame(a[1..], b[1..], t);
    }
  }

  lemma PushesSame(a: seq<Entry>, b: seq<Entry>, pushes: map<nat, seq<nat>>)
    requires |a| == |b| && forall i | 0 <= i < |a| :: a[i].id == b[i].id && a[i].task == b[i].task
    requires PushesOk(a, pushes)
    ensures PushesOk(b, pushes)
  {
    forall t | t in pushes ensures |pushes[t]| == CountTask(b, t) && TaskOk(b, t, pushes[t]) {
      CountTaskSame(a, b, t);
      assert TaskOk(a, t, pushes[t]);
      forall i | 0 <= i < |pushes[t]| ensures Has(b, pushes[t][i], t) {
        FindSame(a, b, pushes[t][i]);
        assert Has(a, pushes[t][i], t);
      }
    }
  }

  lemma HistorySame(a: seq<Entry>, b: seq<Entry>, nextId: nat, executed: seq<nat>, finished: set<nat>)
    requires |a| == |b| && forall i | 0 <= i < |a| :: a[i].id == b[i].id
    requires HistoryOk(a, nextId, executed, finished)
    ensures HistoryOk(b, nextId, executed, finished)
  {
    forall x: nat | x < nextId ensures x in finished || Find(b, x) < |b| { FindSame(a, b, x); }
  }

  lemma FirstPendingSame(a: seq<Entry>, b: seq<Entry>)
    requires |a| == |b| && forall i | 0 <= i < |a| :: a[i].phase.Pending? == b[i].phase.Pending?
    ensures FirstPending(a) == FirstPending(b)
  {
    var i, j := FirstPending(a), FirstPending(b);
    assert i < |a| ==> b[i].phase.Pending?;
    assert j < |b| ==> a[j].phase.Pending?;
  }

  lemma WorkersSame(a: seq<Entry>, b: seq<Entry>, ws: seq<Worker>)
    requires |a| == |b| && forall i | 0 <= i < |a| :: a[i].id == b[i].id && a[i].phase == b[i].phase
    requires WorkersOk(a, ws)
    ensures WorkersOk(b, ws)
  {
    forall w | 0 <= w < |ws| && ws[w].Working?
      ensures Find(b, ws[w].entry) < |b| && b[Find(b, ws[w].entry)].phase == Running(w)
    {
      FindSame(a, b, ws[w].entry);
    }
  }

  lemma TouchInv(s: Pool, k: nat, e: Entry)
    requires Inv(s) && k < |s.list| && SameRun(e, s.list[k])
    requires ClientsOk(s.list[k := e])
    ensures Inv(s.(list := s.list[k := e]))
  {
    hide WorkersOk, HistoryOk, PushesOk, ClientsOk, EntryOk, Count;
    var list := s.list[k := e];
    forall i, j | 0 <= i < j < |list| ensures Before(list[i], list[j]) { assert Before(s.list[i], s.list[j]); }
    TouchEntry(s, k, e);
    HistorySame(s.list, list, s.nextId, s.executed, s.finished);
    PushesSame(s.list, list, s.pushes);
    WorkersSame(s.list, list, s.workers);
    FirstPendingSame(s.list, list);
  }

  lemma TouchEntry(s: Pool, k: nat, e: Entry)
    requires EntriesOk(s.list, s.nextId, s.executed, s.finished) && k < |s.list| && SameRun(e, s.list[k])
    ensures EntriesOk(s.list[k := e], s.nextId, s.executed, s.finished)
  {
    assert EntryOk(s.list[k], s.nextId, s.executed, s.finished);
  }

  // ---------------------------------------------------------------- membership

  lemma FindMember(list: seq<Entry>, e: Entry)
    requires Ordered(list) && e in list
    ensures Find(list, e.id) < |list| && list[Find(list, e.id)] == e
  {
    var k :| 0 <= k < |list| && list[k] == e;
    FindAt(list, k);
  }

  lemma {:induction false} CountTaskZero(list: seq<Entry>, t: nat)
    requires forall i | 0 <= i < |list| :: list[i].task != t
    ensures CountTask(list, t) == 0
  {
    if list != [] {
      assert forall i | 0 <= i < |list| - 1 :: list[1..][i] == list[i + 1];
      CountTaskZero(list[1..], t);
    }
  }

  lemma {:induction false} CountTaskConcat(a: seq<Entry>, b: seq<Entry>, t: nat)
    ensures CountTask(a + b, t) == CountTask(a, t) + CountTask(b, t)
  {
    if a == [] {
      assert a + b == b;
    } else {
      assert (a + b)[1..] == a[1..] + b;
      CountTaskConcat(a[1..], b, t);
    }
  }

  /** PushesOk depends only on which pushes of which tasks are there. */
  lemma PushesMoved(a: seq<Entry>, b: seq<Entry>, pushes: map<nat, seq<nat>>)
    requires Ordered(a) && Ordered(b) && PushesOk(a, pushes)
    requires forall id, t :: Has(a, id, t) <==> Has(b, id, t)
    requires forall t :: CountTask(a, t) == CountTask(b, t)
    ensures PushesOk(b, pushes)
  {
    hide Ordered, CountTask, Find;
    forall i | 0 <= i < |b| ensures b[i].task in pushes && b[i].id in pushes[b[i].task] {
      FindMember(b, b[i]);
      assert Has(b, b[i].id, b[i].task);
      assert Has(a, b[i].id, b[i].task);
    }
    forall t | t in pushes ensures |pushes[t]| == CountTask(b, t) && TaskOk(b, t, pushes[t]) {
      assert TaskOk(a, t, pushes[t]);
    }
  }

  // ---------------------------------------------------------------- workers

  lemma WorkersKept(list: seq<Entry>, ws: seq<Worker>, us: seq<Worker>)
    requires WorkersOk(list, ws) && |ws| <= |us|
    requires forall w | 0 <= w < |ws| :: ws[w].Working? || us[w].Working? ==> us[w] == ws[w]
    requires forall w | |ws| <= w < |us| :: !us[w].Working?
    ensures WorkersOk(list, us)
  {
  }

  lemma BroadcastCounts(ws: seq<Worker>)
    ensures Count(Broadcast(ws), IsWorking) == Count(ws, IsWorking)
    ensures Count(Broadcast(ws), IsLive) == Count(ws, IsLive)
  {
    CountSame(Broadcast(ws), ws, IsWorking);
    CountSame(Broadcast(ws), ws, IsLive);
  }

  // ---------------------------------------------------------------- worker steps

  lemma SleepInv(s: Pool, w: nat)
    requires Inv(s) && Enabled(s, Sleep(w))
    ensures Inv(Apply(s, Sleep(w)).0)
  {
    hide EntriesOk, HistoryOk, PushesOk, ClientsOk;
    var us := s.workers[w := Waiting];
    CountUpdate(s.workers, w, Waiting, IsWorking);
    CountUpdate(s.workers, w, Waiting, IsLive);
    WorkersKept(s.list, s.workers, us);
  }

  lemma QuitInv(s: Pool, w: nat)
    requires Inv(s) && Enabled(s, Quit(w))
    ensures Inv(Apply(s, Quit(w)).0)
  {
    hide EntriesOk, HistoryOk, PushesOk, ClientsOk;
    CountUpdate(s.workers, w, Exited, IsWorking);
    CountUpdate(s.workers, w, Exited, IsLive);
    WorkersKept(s.list, s.workers, s.workers[w := Exited]);
  }

  lemma PoolDeleteInv(s: Pool)
    requires Inv(s) && Enabled(s, PoolDelete)
    ensures Inv(Apply(s, PoolDelete).0)
  {
    hide EntriesOk, HistoryOk, PushesOk, ClientsOk;
    BroadcastCounts(s.workers);
    WorkersKept(s.list, s.workers, Broadcast(s.workers));
  }

  lemma PoolDeleteWakeInv(s: Pool)
    requires Inv(s) && Enabled(s, PoolDeleteWake)
    ensures Inv(Apply(s, PoolDeleteWake).0)
  {
    hide EntriesOk, HistoryOk, PushesOk, ClientsOk, WorkersOk;
  }

  /** Taking an entry: it was the head of the list, and goes behind every entry started before it. */
  lemma TakeOrder(s: Pool, w: nat)
    requires Inv(s) && Enabled(s, Take(w))
    ensures FirstPending(s.list) == 0
    ensures Apply(s, Take(w)).0.list == s.list[1..] + [s.list[0].(phase := Running(w), start := |s.executed|)]
    ensures Ordered(Apply(s, Take(w)).0.list)
  {
    hide HistoryOk, PushesOk, ClientsOk, WorkersOk, Count, Find;
    GetTaskIsHead(s.list);
    var list := Apply(s, Take(w)).0.list;
    var n := |s.list| - 1;
    assert forall i | 0 <= i < n :: list[i] == s.list[i + 1];
    forall i, j | 0 <= i < j <= n ensures Before(list[i], list[j]) {
      assert EntryOk(s.list[i + 1], s.nextId, s.executed, s.finished);
      assert Before(s.list[0], s.list[i + 1]);
      assert j < n ==> Before(s.list[i + 1], s.list[j + 1]);
    }
  }

  lemma TakeEntries(s: Pool, w: nat)
    requires Inv(s) && Enabled(s, Take(w))
    ensures var t := Apply(s, Take(w)).0;
      EntriesOk(t.list, t.nextId, t.executed, t.finished)
  {
    hide HistoryOk, PushesOk, ClientsOk, WorkersOk, Count, Find;
    TakeOrder(s, w);
    var t := Apply(s, Take(w)).0;
    var n := |s.list| - 1;
    assert EntryOk(s.list[0], s.nextId, s.executed, s.finished);
    forall i | 0 <= i <= n ensures EntryOk(t.list[i], t.nextId, t.executed, t.finished) {
      if i < n {
        assert EntryOk(s.list[i + 1], s.nextId, s.executed, s.finished);
        assert Before(s.list[0], s.list[i + 1]);
      }
    }
  }

  lemma TakeHistory(s: Pool, w: nat)
    requires Inv(s) && Enabled(s, Take(w))
    ensures var t := Apply(s, Take(w)).0;
      HistoryOk(t.list, t.nextId, t.executed, t.finished)
  {
    hide PushesOk, ClientsOk, WorkersOk, Count, EntriesOk;
    TakeOrder(s, w);
    var t := Apply(s, Take(w)).0;
    var head, last, tail := s.list[0], t.list[|s.list| - 1], s.list[1..];
    assert EntryOk(head, s.nextId, s.executed, s.finished) by { TakeHead(s); }
    forall x: nat | x < t.nextId ensures x in t.finished || Find(t.list, x) < |t.list| {
      if x !in s.finished { FindMoved(head, tail, last, x); }
    }
  }

  lemma TakeHead(s: Pool)
    requires EntriesOk(s.list, s.nextId, s.executed, s.finished) && s.list != []
    ensures EntryOk(s.list[0], s.nextId, s.executed, s.finished)
  {
  }

  /** Moving an entry from the head to the tail loses nothing. */
  lemma FindMoved(head: Entry, tail: seq<Entry>, last: Entry, id: nat)
    requires Ordered([head] + tail) && Ordered(tail + [last]) && last.id == head.id && last.task == head.task
    ensures Find([head] + tail, id) < |tail| + 1 <==> Find(tail + [last], id) < |tail| + 1
    ensures forall t :: Has([head] + tail, id, t) <==> Has(tail + [last], id, t)
  {
    var a, b := [head] + tail, tail + [last];
    var i, j := Find(a, id), Find(b, id);
    if i < |a| {
      assert a[i] == head || a[i] in tail;
      var e := if i == 0 then last else a[i];
      assert e in b;
      FindMember(b, e);
    }
  }

  lemma TakePushes(s: Pool, w: nat)
    requires Inv(s) && Enabled(s, Take(w))
    ensures var t := Apply(s, Take(w)).0;
      PushesOk(t.list, t.pushes) && ClientsOk(t.list)
  {
    hide WorkersOk, Count, EntriesOk, HistoryOk, Has, Find, Ordered, PushesOk;
    TakeOrder(s, w);
    var t := Apply(s, Take(w)).0;
    var head, last, tail := s.list[0], t.list[|s.list| - 1], s.list[1..];
    assert s.list == [head] + tail && t.list == tail + [last];
    forall u ensures CountTask(s.list, u) == CountTask(t.list, u) {
      CountTaskConcat([head], tail, u);
      CountTaskConcat(tail, [last], u);
    }
    forall id, u ensures Has(s.list, id, u) <==> Has(t.list, id, u) { FindMoved(head, tail, last, id); }
    PushesMoved(s.list, t.list, s.pushes);
    TakeClients(s.list, tail, head, last);
  }

  lemma TakeClients(list: seq<Entry>, tail: seq<Entry>, head: Entry, last: Entry)
    requires list == [head] + tail && ClientsOk(list) && head.phase.Pending? && last.phase.Running?
    requires last == head.(phase := last.phase, start := last.start)
    ensures ClientsOk(tail + [last])
  {
    var out := tail + [last];
    forall i | 0 <= i < |out| ensures JoinOk(out[i]) {
      assert JoinOk(if i < |tail| then list[i + 1] else list[0]);
    }
    forall i, j | 0 <= i < |out| && 0 <= j < |out| && out[i].detached && out[j].task == out[i].task
      ensures out[j].waiter.Nobody?
    {
      var i', j' := if i < |tail| then i + 1 else 0, if j < |tail| then j + 1 else 0;
      assert list[i'].detached && list[j'].task == list[i'].task;
    }
  }

  lemma TakeWorkers(s: Pool, w: nat)
    requires Inv(s) && Enabled(s, Take(w))
    ensures var t := Apply(s, Take(w)).0;
      WorkersOk(t.list, t.workers)
  {
    hide EntriesOk, HistoryOk, CountsOk, PushesOk, ClientsOk, SleepOk;
    TakeOrder(s, w);
    var t := Apply(s, Take(w)).0;
    var n := |s.list| - 1;
    assert forall i | 0 <= i < n :: t.list[i] == s.list[i + 1];
    forall v | 0 <= v < |t.workers| && t.workers[v].Working?
      ensures Find(t.list, t.workers[v].entry) < |t.list|
      ensures t.list[Find(t.list, t.workers[v].entry)].phase == Running(v)
    {
      if v == w {
        FindMember(t.list, t.list[n]);
      } else {
        var k := Find(s.list, s.workers[v].entry);
        assert s.list[k].phase == Running(v) && k > 0 && t.list[k - 1] == s.list[k];
        FindMember(t.list, t.list[k - 1]);
      }
    }
  }

  lemma TakeInv(s: Pool, w: nat)
    requires Inv(s) && Enabled(s, Take(w))
    ensures Inv(Apply(s, Take(w)).0)
  {
    hide EntriesOk, HistoryOk, PushesOk, ClientsOk, WorkersOk, Ordered;
    TakeOrder(s, w);
    TakeEntries(s, w);
    TakeHistory(s, w);
    TakePushes(s, w);
    TakeWorkers(s, w);
    CountUpdate(s.workers, w, Working(s.list[0].id), IsWorking);
    CountUpdate(s.workers, w, Working(s.list[0].id), IsLive);
  }

  // ---------------------------------------------------------------- finishing an entry

  /** The entry a working worker runs. */
  lemma RunningEntry(s: Pool, w: nat)
    requires Inv(s) && w < |s.workers| && s.workers[w].Working?
    ensures var k := Find(s.list, s.workers[w].entry);
      && k < |s.list| && s.list[k].phase == Running(w) && s.list[k].id == s.workers[w].entry
      && EntryOk(s.list[k], s.nextId, s.executed, s.finished)
  {
  }

  /** The pool right after line 317: finished, not yet deleted. */
  function Finished1(s: Pool, w: nat, r: int): Pool
    requires Enabled(s, Finish(w, r))
  {
    var k := Find(s.list, s.workers[w].entry);
    var e := s.list[k].(phase := Finished(r), waiter := Wake(s.list[k].waiter));
    s.(list := s.list[k := e], workers := s.workers[w := Ready], activeCnt := s.activeCnt - 1,
       finished := s.finished + {e.id})
  }

  lemma FinishOrder(s: Pool, w: nat, r: int)
    requires Inv(s) && Enabled(s, Finish(w, r))
    ensures Ordered(Finished1(s, w, r).list)
  {
    RunningEntry(s, w);
    hide EntriesOk, HistoryOk, WorkersOk, CountsOk, PushesOk, ClientsOk, SleepOk, Find;
    var list := Finished1(s, w, r).list;
    forall i, j | 0 <= i < j < |list| ensures Before(list[i], list[j]) { assert Before(s.list[i], s.list[j]); }
  }

  lemma FinishHistory(s: Pool, w: nat, r: int)
    requires Inv(s) && Enabled(s, Finish(w, r))
    ensures var t := Finished1(s, w, r);
      HistoryOk(t.list, t.nextId, t.executed, t.finished)
  {
    RunningEntry(s, w);
    hide EntriesOk, WorkersOk, CountsOk, PushesOk, ClientsOk, SleepOk, Ordered, Find;
    var k := Find(s.list, s.workers[w].entry);
    assert s.executed[s.list[k].start] in s.executed;
    HistorySame(s.list, Finished1(s, w, r).list, s.nextId, s.executed, s.finished);
  }

  lemma FinishEntries(s: Pool, w: nat, r: int)
    requires Inv(s) && Enabled(s, Finish(w, r))
    ensures var t := Finished1(s, w, r);
      && Ordered(t.list) && EntriesOk(t.list, t.nextId, t.executed, t.finished)
      && HistoryOk(t.list, t.nextId, t.executed, t.finished)
  {
    hide PushesOk, ClientsOk, WorkersOk, CountsOk, SleepOk, Count, Find;
    FinishOrder(s, w, r);
    FinishHistory(s, w, r);
    var k, t := Find(s.list, s.workers[w].entry), Finished1(s, w, r);
    RunningEntry(s, w);
    forall i | 0 <= i < |t.list| ensures EntryOk(t.list[i], t.nextId, t.executed, t.finished) {
      assert EntryOk(s.list[i], s.nextId, s.executed, s.finished);
      assert (i < k ==> Before(s.list[i], s.list[k])) && (k < i ==> Before(s.list[k], s.list[i]));
    }
  }

  lemma FinishWorkers(s: Pool, w: nat, r: int)
    requires Inv(s) && Enabled(s, Finish(w, r))
    ensures var t := Finished1(s, w, r);
      WorkersOk(t.list, t.workers)
  {
    hide EntriesOk, HistoryOk, ClientsOk, PushesOk, Count, FirstPending;
    RunningEntry(s, w);
    var k, t := Find(s.list, s.workers[w].entry), Finished1(s, w, r);
    forall v | 0 <= v < |t.workers| && t.workers[v].Working?
      ensures Find(t.list, t.workers[v].entry) < |t.list|
      ensures t.list[Find(t.list, t.workers[v].entry)].phase == Running(v)
    {
      FindSame(s.list, t.list, t.workers[v].entry);
    }
    forall i | 0 <= i < |t.list| && t.list[i].phase.Running?
      ensures t.list[i].phase.worker < |t.workers|
      ensures t.workers[t.list[i].phase.worker] == Working(t.list[i].id)
    {
      assert i != k && (i < k ==> Before(s.list[i], s.list[k])) && (k < i ==> Before(s.list[k], s.list[i]));
    }
  }

  lemma FinishPushes(s: Pool, w: nat, r: int)
    requires Inv(s) && Enabled(s, Finish(w, r))
    ensures PushesOk(Finished1(s, w, r).list, s.pushes) && Finished1(s, w, r).pushes == s.pushes
  {
    hide EntriesOk, HistoryOk, ClientsOk, WorkersOk, PushesOk, Count, FirstPending;
    PushesSame(s.list, Finished1(s, w, r).list, s.pushes);
  }

  lemma FinishClients(s: Pool, w: nat, r: int)
    requires Inv(s) && Enabled(s, Finish(w, r))
    ensures ClientsOk(Finished1(s, w, r).list)
  {
    hide EntriesOk, HistoryOk, PushesOk, Count, Ordered;
    RunningEntry(s, w);
    var k, list := Find(s.list, s.workers[w].entry), Finished1(s, w, r).list;
    forall i | 0 <= i < |list| ensures JoinOk(list[i]) { assert JoinOk(s.list[i]); }
    forall i, j | 0 <= i < |list| && 0 <= j < |list| && list[i].detached && list[j].task == list[i].task
      ensures list[j].waiter.Nobody?
    {
      assert s.list[i].detached && s.list[j].task == s.list[i].task;
    }
  }

  lemma FinishSleep(s: Pool, w: nat, r: int)
    requires Inv(s) && Enabled(s, Finish(w, r))
    ensures var t := Finished1(s, w, r);
      CountsOk(t) && SleepOk(t)
  {
    hide EntriesOk, HistoryOk, PushesOk, ClientsOk, Ordered;
    RunningEntry(s, w);
    CountUpdate(s.workers, w, Ready, IsWorking);
    CountUpdate(s.workers, w, Ready, IsLive);
    FirstPendingSame(s.list, Finished1(s, w, r).list);
  }

  lemma Finish1Inv(s: Pool, w: nat, r: int)
    requires Inv(s) && Enabled(s, Finish(w, r))
    ensures Inv(Finished1(s, w, r))
  {
    hide EntriesOk, HistoryOk, PushesOk, ClientsOk, Ordered, WorkersOk, CountsOk, SleepOk, Find, Finished1;
    FinishEntries(s, w, r);
    FinishPushes(s, w, r);
    FinishWorkers(s, w, r);
    FinishClients(s, w, r);
    FinishSleep(s, w, r);
  }

  // ---------------------------------------------------------------- deleting a task

  lemma {:induction false} RemoveOrdered(list: seq<Entry>, t: nat)
    requires Ordered(list)
    ensures Ordered(RemoveTask(list, t))
  {
    if list != [] {
      var tail := list[1..];
      forall i, j | 0 <= i < j < |tail| ensures Before(tail[i], tail[j]) { assert Before(list[i + 1], list[j + 1]); }
      RemoveOrdered(tail, t);
      var rest := RemoveTask(tail, t);
      forall j | 0 <= j < |rest| ensures Before(list[0], rest[j]) {
        assert rest[j] in tail;
        var k :| 0 <= k < |tail| && tail[k] == rest[j];
        assert Before(list[0], list[k + 1]);
      }
    }
  }

  lemma {:induction false} RemoveCount(list: seq<Entry>, t: nat, u: nat)
    ensures CountTask(RemoveTask(list, t), u) == if u == t then 0 else CountTask(list, u)
    ensures |RemoveTask(list, t)| == |list| - CountTask(list, t)
  {
    if list != [] {
      var rest := RemoveTask(list[1..], t);
      RemoveCount(list[1..], t, u);
      assert ([list[0]] + rest)[1..] == rest;
    }
  }

  lemma RemoveFind(list: seq<Entry>, t: nat, id: nat)
    requires Ordered(list)
    ensures var out := RemoveTask(list, t);
      && (forall u :: Has(out, id, u) <==> Has(list, id, u) && u != t)
      && (Find(out, id) < |out| ==> Find(list, id) < |list| && list[Find(list, id)] == out[Find(out, id)])
      && (Find(list, id) < |list| && list[Find(list, id)].task != t ==> Find(out, id) < |out|)
  {
    var out := RemoveTask(list, t);
    RemoveOrdered(list, t);
    var k, j := Find(list, id), Find(out, id);
    if k < |list| && list[k].task != t { FindMember(out, list[k]); }
    if j < |out| { assert out[j] in out; FindMember(list, out[j]); }
  }

  /** delete_task on a task all of whose entries have finished. */
  lemma RemoveInv(s: Pool, t: nat)
    requires Inv(s) && t in s.pushes && Deletable(s.list, t)
    requires forall e | e in s.list && e.task == t :: e.phase.Finished?
    ensures Inv(DeleteTask(s, t).0) && DeleteTask(s, t).1 == Ok
  {
    hide EntriesOk, HistoryOk, PushesOk, ClientsOk, Ordered, WorkersOk, Find, FirstPending, Count, CountTask;
    RemoveOrdered(s.list, t);
    RemoveEntries(s, t);
    RemovePushes(s.list, s.pushes, t);
    RemoveWorkers(s, t);
    RemoveClients(s, t);
    RemoveCount(s.list, t, t);
    RemovePending(s.list, t);
    Accounted(s, t);
  }

  lemma Accounted(s: Pool, t: nat)
    requires PushesOk(s.list, s.pushes) && t in s.pushes
    ensures |s.pushes[t]| == CountTask(s.list, t)
  {
  }

  lemma RemovePending(list: seq<Entry>, t: nat)
    ensures SomePending(RemoveTask(list, t)) ==> SomePending(list)
    ensures list == [] ==> RemoveTask(list, t) == []
  {
    var out := RemoveTask(list, t);
    var k := FirstPending(out);
    if k < |out| { assert out[k] in out && out[k] in list; }
  }

  lemma RemoveEntries(s: Pool, t: nat)
    requires Inv(s) && forall e | e in s.list && e.task == t :: e.phase.Finished?
    ensures var list := RemoveTask(s.list, t);
      && EntriesOk(list, s.nextId, s.executed, s.finished) && HistoryOk(list, s.nextId, s.executed, s.finished)
  {
    hide PushesOk, ClientsOk, WorkersOk, Count, FirstPending;
    var list := RemoveTask(s.list, t);
    forall i | 0 <= i < |list| ensures EntryOk(list[i], s.nextId, s.executed, s.finished) {
      assert list[i] in list && list[i] in s.list;
      var k :| 0 <= k < |s.list| && s.list[k] == list[i];
      assert EntryOk(s.list[k], s.nextId, s.executed, s.finished);
    }
    forall x: nat | x < s.nextId ensures x in s.finished || Find(list, x) < |list| {
      RemoveFind(s.list, t, x);
      var k := Find(s.list, x);
      if k < |s.list| && s.list[k].task == t { assert EntryOk(s.list[k], s.nextId, s.executed, s.finished); }
    }
  }

  lemma RemovePushes(list: seq<Entry>, pushes: map<nat, seq<nat>>, t: nat)
    requires Ordered(list) && PushesOk(list, pushes) && t in pushes
    ensures PushesOk(RemoveTask(list, t), pushes - {t})
  {
    hide Ordered, CountTask, Find, Has, TaskOk;
    var out := RemoveTask(list, t);
    forall i | 0 <= i < |out| ensures out[i].task != t && out[i].task in pushes && out[i].id in pushes[out[i].task] {
      RemoveListed(list, pushes, t, out[i]);
    }
    forall u | u in pushes && u != t ensures |pushes[u]| == CountTask(out, u) && TaskOk(out, u, pushes[u]) {
      RemoveCount(list, t, u);
      RemoveTaskOk(list, t, u, pushes[u]);
    }
  }

  lemma RemoveListed(list: seq<Entry>, pushes: map<nat, seq<nat>>, t: nat, e: Entry)
    requires PushesOk(list, pushes) && e in RemoveTask(list, t)
    ensures e.task != t && e.task in pushes && e.id in pushes[e.task]
  {
    var k :| 0 <= k < |list| && list[k] == e;
    assert list[k].task in pushes;
  }

  lemma RemoveTaskOk(list: seq<Entry>, t: nat, u: nat, ids: seq<nat>)
    requires Ordered(list) && TaskOk(list, u, ids) && u != t
    ensures TaskOk(RemoveTask(list, t), u, ids)
  {
    hide Has, Ordered;
    forall i | 0 <= i < |ids| ensures Has(RemoveTask(list, t), ids[i], u) { RemoveFind(list, t, ids[i]); }
  }

  lemma RemoveWorkers(s: Pool, t: nat)
    requires Inv(s) && forall e | e in s.list && e.task == t :: e.phase.Finished?
    ensures WorkersOk(RemoveTask(s.list, t), s.workers)
  {
    hide EntriesOk, HistoryOk, ClientsOk, PushesOk, Count, FirstPending;
    var list := RemoveTask(s.list, t);
    forall i | 0 <= i < |list| && list[i].phase.Running?
      ensures list[i].phase.worker < |s.workers| && s.workers[list[i].phase.worker] == Working(list[i].id)
    {
      assert list[i] in list && list[i] in s.list;
    }
    forall w | 0 <= w < |s.workers| && s.workers[w].Working?
      ensures Find(list, s.workers[w].entry) < |list| && list[Find(list, s.workers[w].entry)].phase == Running(w)
    {
      RemoveFind(s.list, t, s.workers[w].entry);
    }
  }

  lemma RemoveClients(s: Pool, t: nat)
    requires Inv(s)
    ensures ClientsOk(RemoveTask(s.list, t))
  {
    hide EntriesOk, HistoryOk, WorkersOk, PushesOk, Count, FirstPending, Ordered;
    var list := RemoveTask(s.list, t);
    forall i | 0 <= i < |list| ensures JoinOk(list[i]) { assert list[i] in list && list[i] in s.list; }
    forall i, j | 0 <= i < |list| && 0 <= j < |list| && list[i].detached && list[j].task == list[i].task
      ensures list[j].waiter.Nobody?
    {
      assert list[i] in list && list[i] in s.list && list[j] in list && list[j] in s.list;
    }
  }

  /** A step that ends with delete_task in state u, and drops no work, frees only pushes that have finished. */
  lemma DeleteKeepsInv(s: Pool, a: Action, u: Pool, t: nat)
    requires Enabled(s, a) && Frees(a) && !Drops(s, a) && Inv(u) && t in u.pushes
    requires |u.list| == |s.list| && forall i | 0 <= i < |s.list| :: u.list[i].id == s.list[i].id
    requires Apply(s, a).0 == DeleteTask(u, t).0
    ensures Inv(DeleteTask(u, t).0)
  {
    hide Inv, Apply, Enabled;
    if Deletable(u.list, t) {
      forall e | e in u.list && e.task == t ensures e.phase.Finished? {
        var i :| 0 <= i < |u.list| && u.list[i] == e;
        RemovedEntry(u, t, i);
        assert s.list[i] in s.list;
      }
      RemoveInv(u, t);
    }
  }

  lemma RemovedEntry(u: Pool, t: nat, i: nat)
    requires Inv(u) && i < |u.list|
    ensures var out := RemoveTask(u.list, t);
      Find(out, u.list[i].id) == |out| <==> u.list[i].task == t
    ensures u.list[i].phase.Finished? <==> u.list[i].id in u.finished
  {
    hide HistoryOk, PushesOk, ClientsOk, WorkersOk, CountsOk, SleepOk;
    FindAt(u.list, i);
    RemoveFind(u.list, t, u.list[i].id);
    assert EntryOk(u.list[i], u.nextId, u.executed, u.finished);
  }

  lemma FinishInv(s: Pool, w: nat, r: int)
    requires Inv(s) && Enabled(s, Finish(w, r)) && !Drops(s, Finish(w, r))
    ensures Inv(Apply(s, Finish(w, r)).0)
  {
    hide Inv, Drops;
    Finish1Inv(s, w, r);
    var t := Finished1(s, w, r);
    var k := Find(s.list, s.workers[w].entry);
    if t.list[k].detached && t.list[k].task in t.pushes {
      DeleteKeepsInv(s, Finish(w, r), t, t.list[k].task);
    }
  }

  // ---------------------------------------------------------------- client steps

  lemma NewTaskInv(s: Pool, t: nat)
    requires Inv(s) && Enabled(s, NewTask(t))
    ensures Inv(Apply(s, NewTask(t)).0)
  {
    hide EntriesOk, HistoryOk, ClientsOk, WorkersOk, Count, FirstPending, Ordered;
    CountTaskZero(s.list, t);
  }

  lemma DropTaskInv(s: Pool, t: nat)
    requires Inv(s) && t in s.pushes && s.pushes[t] == []
    ensures Inv(s.(pushes := s.pushes - {t}))
  {
    hide EntriesOk, HistoryOk, ClientsOk, WorkersOk, Count, FirstPending, Ordered;
  }

  lemma PushList(s: Pool, t: nat)
    requires Inv(s) && Enabled(s, Push(t)) && s.tasksCnt != TPOOL_MAX_TASKS
    ensures var u := Apply(s, Push(t)).0;
      && Ordered(u.list) && EntriesOk(u.list, u.nextId, u.executed, u.finished)
      && HistoryOk(u.list, u.nextId, u.executed, u.finished)
  {
    hide ClientsOk, WorkersOk, PushesOk, Count, FirstPending;
    var u := Apply(s, Push(t)).0;
    assert forall i | 0 < i < |u.list| :: u.list[i] == s.list[i - 1];
    forall i | 0 <= i < |u.list| ensures EntryOk(u.list[i], u.nextId, u.executed, u.finished) {
      if i > 0 { assert EntryOk(s.list[i - 1], s.nextId, s.executed, s.finished); }
      else { assert s.nextId !in s.executed; }
    }
    forall i, j | 0 <= i < j < |u.list| ensures Before(u.list[i], u.list[j]) {
      assert EntryOk(s.list[j - 1], s.nextId, s.executed, s.finished);
      if i > 0 { assert Before(s.list[i - 1], s.list[j - 1]); }
    }
    forall x: nat | x < u.nextId ensures x in u.finished || Find(u.list, x) < |u.list| {
      if x != s.nextId { FindBehind(u.list[0], s.list, x); }
    }
  }

  lemma FindBehind(head: Entry, list: seq<Entry>, id: nat)
    requires head.id != id
    ensures Find([head] + list, id) == 1 + Find(list, id)
  {
    assert ([head] + list)[1..] == list;
  }

  lemma PushPushes(s: Pool, t: nat)
    requires Inv(s) && Enabled(s, Push(t)) && s.tasksCnt != TPOOL_MAX_TASKS
    ensures var u := Apply(s, Push(t)).0;
      PushesOk(u.list, u.pushes)
  {
    hide ClientsOk, WorkersOk, HistoryOk, Count, FirstPending, Ordered, TaskOk;
    var u := Apply(s, Push(t)).0;
    var head := u.list[0];
    assert u.list[1..] == s.list;
    forall i | 0 <= i < |u.list| ensures u.list[i].task in u.pushes && u.list[i].id in u.pushes[u.list[i].task] {
      if i > 0 { assert u.list[i] == s.list[i - 1]; }
    }
    forall x | x in u.pushes ensures |u.pushes[x]| == CountTask(u.list, x) && TaskOk(u.list, x, u.pushes[x]) {
      assert TaskOk(s.list, x, s.pushes[x]);
      OlderIds(s, x);
      TaskBehind(head, s.list, x, s.pushes[x]);
    }
  }

  /** The ids of a task's pushes are older than the next one. */
  lemma OlderIds(s: Pool, x: nat)
    requires EntriesOk(s.list, s.nextId, s.executed, s.finished) && x in s.pushes && TaskOk(s.list, x, s.pushes[x])
    ensures forall i | 0 <= i < |s.pushes[x]| :: s.pushes[x][i] < s.nextId
  {
    forall i | 0 <= i < |s.pushes[x]| ensures s.pushes[x][i] < s.nextId {
      assert Has(s.list, s.pushes[x][i], x);
      assert EntryOk(s.list[Find(s.list, s.pushes[x][i])], s.nextId, s.executed, s.finished);
    }
  }

  lemma TaskBehind(head: Entry, list: seq<Entry>, x: nat, ids: seq<nat>)
    requires TaskOk(list, x, ids) && forall i | 0 <= i < |ids| :: ids[i] < head.id
    ensures TaskOk([head] + list, x, ids)
    ensures head.task == x ==> TaskOk([head] + list, x, [head.id] + ids)
  {
    hide Find;
    forall i | 0 <= i < |ids| ensures Has([head] + list, ids[i], x) {
      assert Has(list, ids[i], x);
      FindBehind(head, list, ids[i]);
      assert ([head] + list)[1 + Find(list, ids[i])] == list[Find(list, ids[i])];
    }
    if head.task == x { HasHead(head, list); }
  }

  lemma HasHead(head: Entry, list: seq<Entry>)
    ensures Has([head] + list, head.id, head.task)
  {
  }

  lemma PushCounts(s: Pool, t: nat)
    requires Inv(s) && Enabled(s, Push(t)) && s.tasksCnt != TPOOL_MAX_TASKS
    ensures CountsOk(Apply(s, Push(t)).0)
  {
    hide ClientsOk, HistoryOk, PushesOk, Ordered, EntriesOk, WorkersOk, SleepOk, FirstPending, Count, Broadcast;
    var create := s.activeCnt == s.threadsCnt && s.threadsCnt < s.maxThreads;
    var ws := if create then s.workers + [Ready] else s.workers;
    CountConcat(s.workers, [Ready], IsWorking);
    CountConcat(s.workers, [Ready], IsLive);
    CountOne(Ready, IsWorking);
    CountOne(Ready, IsLive);
    BroadcastCounts(ws);
  }

  lemma CountOne<T>(x: T, p: T -> bool)
    ensures Count([x], p) == if p(x) then 1 else 0
  {
  }

  lemma PushWorkers(s: Pool, t: nat)
    requires Inv(s) && Enabled(s, Push(t)) && s.tasksCnt != TPOOL_MAX_TASKS && s.isActive
    ensures var u := Apply(s, Push(t)).0;
      WorkersOk(u.list, u.workers) && SleepOk(u)
  {
    hide ClientsOk, HistoryOk, PushesOk, Ordered, Count;
    var u := Apply(s, Push(t)).0;
    WorkersKept(s.list, s.workers, u.workers);
    PushRunning(s, u.list[0], u.workers);
    SomeThread(s);
  }

  /** A pool whose threads are all busy has a thread, or room for one. */
  lemma SomeThread(s: Pool)
    requires CountsOk(s)
    ensures s.threadsCnt > 0 || (s.activeCnt == s.threadsCnt && s.threadsCnt < s.maxThreads)
  {
    WorkingIsLive(s.workers);
  }

  lemma {:induction false} WorkingIsLive(ws: seq<Worker>)
    ensures Count(ws, IsWorking) <= Count(ws, IsLive)
  {
    if ws != [] { WorkingIsLive(ws[1..]); }
  }

  lemma PushRunning(s: Pool, head: Entry, ws: seq<Worker>)
    requires EntriesOk(s.list, s.nextId, s.executed, s.finished) && WorkersOk(s.list, ws)
    requires head.id == s.nextId && head.phase.Pending?
    ensures WorkersOk([head] + s.list, ws)
  {
    var list := [head] + s.list;
    forall i | 0 <= i < |list| && list[i].phase.Running?
      ensures list[i].phase.worker < |ws| && ws[list[i].phase.worker] == Working(list[i].id)
    {
      assert list[i] == s.list[i - 1];
    }
    forall w | 0 <= w < |ws| && ws[w].Working?
      ensures Find(list, ws[w].entry) < |list| && list[Find(list, ws[w].entry)].phase == Running(w)
    {
      assert EntryOk(s.list[Find(s.list, ws[w].entry)], s.nextId, s.executed, s.finished);
      FindBehind(head, s.list, ws[w].entry);
    }
  }

  lemma PushClients(s: Pool, t: nat)
    requires Inv(s) && Enabled(s, Push(t)) && s.tasksCnt != TPOOL_MAX_TASKS && Attached(s.list, t)
    ensures ClientsOk(Apply(s, Push(t)).0.list)
  {
    hide EntriesOk, HistoryOk, PushesOk, WorkersOk, Ordered, Count, FirstPending;
    var list := Apply(s, Push(t)).0.list;
    assert forall i | 0 < i < |list| :: list[i] == s.list[i - 1];
    forall i | 0 <= i < |list| ensures JoinOk(list[i]) { assert i > 0 ==> JoinOk(s.list[i - 1]); }
    forall i, j | 0 <= i < |list| && 0 <= j < |list| && list[i].detached && list[j].task == list[i].task
      ensures list[j].waiter.Nobody?
    {
      assert list[i] == s.list[i - 1] && s.list[i - 1] in s.list;
      assert j > 0;
      assert s.list[i - 1].detached && s.list[j - 1].task == s.list[i - 1].task;
    }
  }

  lemma PushInv(s: Pool, t: nat)
    requires Inv(s) && Enabled(s, Push(t)) && Disciplined(s, Push(t))
    ensures Inv(Apply(s, Push(t)).0)
  {
    hide EntriesOk, HistoryOk, PushesOk, WorkersOk, Ordered, Count, FirstPending, CountsOk, SleepOk, ClientsOk;
    if s.tasksCnt != TPOOL_MAX_TASKS {
      PushList(s, t);
      PushPushes(s, t);
      PushCounts(s, t);
      PushWorkers(s, t);
      PushClients(s, t);
    }
  }

  /** The latest push of a task is an entry of it. */
  lemma LatestEntry(s: Pool, t: nat)
    requires Inv(s) && Pushed(s, t)
    ensures Latest(s, t) < |s.list| && s.list[Latest(s, t)].task == t
  {
    assert TaskOk(s.list, t, s.pushes[t]);
    assert Has(s.list, s.pushes[t][0], t);
  }

  /** New flags on entry k that keep its joins consistent. */
  lemma TouchClients(list: seq<Entry>, k: nat, e: Entry)
    requires ClientsOk(list) && k < |list| && SameRun(e, list[k]) && JoinOk(e)
    requires e.detached && !list[k].detached ==>
      forall j | 0 <= j < |list| && list[j].task == e.task && j != k :: list[j].waiter.Nobody?
    requires e.detached ==> e.waiter.Nobody?
    requires e.waiter.Nobody? || forall i | 0 <= i < |list| && list[i].task == e.task :: !list[i].detached
    ensures ClientsOk(list[k := e])
  {
    var out := list[k := e];
    forall i, j | 0 <= i < |out| && 0 <= j < |out| && out[i].detached && out[j].task == out[i].task
      ensures out[j].waiter.Nobody?
    {
      if i != k && j != k { assert list[i].detached && list[j].task == list[i].task; }
    }
  }

  lemma JoinInv(s: Pool, t: nat, timeout: Timeout)
    requires Inv(s) && Enabled(s, Join(t, timeout)) && Disciplined(s, Join(t, timeout))
    ensures Inv(Apply(s, Join(t, timeout)).0)
  {
    hide EntriesOk, HistoryOk, PushesOk, WorkersOk, Ordered, Count, FirstPending, CountsOk, SleepOk;
    if s.pushes[t] != [] && !timeout.NonPositive? {
      var k := Latest(s, t);
      LatestEntry(s, t);
      var e := s.list[k].(joined := true);
      var f := if e.phase.Finished? then e else e.(waiter := Blocked(timeout.Positive?));
      forall i | 0 <= i < |s.list| && s.list[i].task == t ensures !s.list[i].detached { assert s.list[i] in s.list; }
      TouchClients(s.list, k, f);
      TouchInv(s, k, f);
    }
  }

  /** A task that is being joined is not detached. */
  lemma JoinedIsAttached(list: seq<Entry>, k: nat)
    requires ClientsOk(list) && k < |list| && !list[k].waiter.Nobody?
    ensures forall i | 0 <= i < |list| && list[i].task == list[k].task :: !list[i].detached
  {
  }

  lemma JoinReturnInv(s: Pool, id: nat, a: Action)
    requires Inv(s) && Enabled(s, a) && (a == JoinReturn(id) || a == JoinTimeOut(id))
    ensures Inv(Apply(s, a).0)
  {
    hide EntriesOk, HistoryOk, PushesOk, WorkersOk, Ordered, Count, FirstPending, CountsOk, SleepOk;
    var k := Find(s.list, id);
    var e := s.list[k].(waiter := Nobody);
    JoinedIsAttached(s.list, k);
    TouchClients(s.list, k, e);
    TouchInv(s, k, e);
  }

  /** The pool after line 492. */
  lemma DetachMarkInv(s: Pool, t: nat)
    requires Inv(s) && Enabled(s, Detach(t)) && Disciplined(s, Detach(t)) && Pushed(s, t)
    ensures var k := Latest(s, t);
      Inv(s.(list := s.list[k := s.list[k].(detached := true)])) && s.list[k].task == t
  {
    hide EntriesOk, HistoryOk, PushesOk, WorkersOk, Ordered, Count, FirstPending, CountsOk, SleepOk;
    var k := Latest(s, t);
    LatestEntry(s, t);
    var e := s.list[k].(detached := true);
    assert s.list[k] in s.list;
    forall j | 0 <= j < |s.list| && s.list[j].task == t ensures s.list[j].waiter.Nobody? {
      assert s.list[j] in s.list;
    }
    TouchClients(s.list, k, e);
    TouchInv(s, k, e);
  }

  lemma DetachInv(s: Pool, t: nat)
    requires Inv(s) && Enabled(s, Detach(t)) && Disciplined(s, Detach(t)) && !Drops(s, Detach(t))
    ensures Inv(Apply(s, Detach(t)).0)
  {
    hide Inv, Drops;
    if s.pushes[t] != [] {
      var k := Latest(s, t);
      DetachMarkInv(s, t);
      var s1 := s.(list := s.list[k := s.list[k].(detached := true)]);
      if s.list[k].phase.Finished? { DeleteKeepsInv(s, Detach(t), s1, t); }
    }
  }

  lemma DeleteInv(s: Pool, t: nat)
    requires Inv(s) && Enabled(s, Delete(t)) && !Drops(s, Delete(t))
    ensures Inv(Apply(s, Delete(t)).0)
  {
    hide Inv, Drops;
    if s.pushes[t] == [] { DropTaskInv(s, t); } else { DeleteKeepsInv(s, Delete(t), s, t); }
  }

  /** Every disciplined step that drops no work keeps the invariant. */
  lemma StepInv(s: Pool, a: Action)
    requires Inv(s) && Enabled(s, a) && Disciplined(s, a) && !Drops(s, a)
    ensures Inv(Apply(s, a).0)
  {
    hide Inv, Apply, Enabled, Disciplined, Drops;
    match a
    case NewTask(t) => NewTaskInv(s, t);
    case Push(t) => PushInv(s, t);
    case Join(t, timeout) => JoinInv(s, t, timeout);
    case JoinReturn(id) => JoinReturnInv(s, id, a);
    case JoinTimeOut(id) => JoinReturnInv(s, id, a);
    case Detach(t) => DetachInv(s, t);
    case Delete(t) => DeleteInv(s, t);
    case PoolDelete => PoolDeleteInv(s);
    case PoolDeleteWake => PoolDeleteWakeInv(s);
    case Take(w) => TakeInv(s, w);
    case Sleep(w) => SleepInv(s, w);
    case Quit(w) => QuitInv(s, w);
    case Finish(w, r) => FinishInv(s, w, r);
  }
}
