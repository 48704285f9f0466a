/**
 * The sorting coroutines with their clock readings. A coroutine that gets control calls set_coro_timestamp; before it
 * gives control back, by a yield or by returning, it calls update_coro_work_time. Nothing is assumed about the order
 * in which they run.
 */
module TimedRun {
  import opened Wrappers

  import opened WorkTime
  import Prog = SortProgram

  /** A stretch in which a coroutine ran, by the readings taken at its two ends. */
  datatype Interval = Interval(coro: nat, from: nat, to: nat)

  /**
   * stamps and work are the prev_timestamp and coro_work_time of every coroutine; ticks counts the readings taken.
   * running, the reading at which that coroutine got control, and log are history.
   */
  datatype Timed = Timed(
    prog: Prog.Program, running: Option<nat>, began: nat, ticks: nat,
    stamps: seq<Timespec>, work: seq<Timespec>, log: seq<Interval>)

  datatype Event = Resume(coro: nat) | Suspend

  /** Line 93 takes the first reading. */
  function Start(files: seq<seq<int>>, coros: nat): Timed {
    var zero := seq(coros, _ => Timespec(0, 0));
    Timed(Prog.Start(files, coros), None, 0, 1, zero, zero, [])
  }

  predicate Enabled(t: Timed, e: Event) {
    && Prog.Readable(t.prog.files) && |t.stamps| == |t.work| == |t.prog.pcs|
    && match e
       case Resume(i) => t.running.None? && Prog.CanRun(t.prog, i)
       case Suspend => t.running.Some? && Prog.CanRun(t.prog, t.running.value)
  }

  function Apply(clock: nat -> Timespec, t: Timed, e: Event): Timed
    requires Enabled(t, e)
  {
    match e
    case Resume(i) =>
      // Line 59 in a coroutine that starts, line 229 in one that comes back from a yield.
      t.(running := Some(i), began := t.ticks, stamps := t.stamps[i := clock(t.ticks)], ticks := t.ticks + 1)
    case Suspend =>
      // Line 225 before a yield, line 78 before the return.
      var i := t.running.value;
      t.(prog := Prog.Step(t.prog, i), running := None, ticks := t.ticks + 1,
         work := t.work[i := FromNanos(Nanos(t.work[i]) + Nanos(clock(t.ticks)) - Nanos(t.stamps[i]))],
         log := t.log + [Interval(i, t.began, t.ticks)])
  }

  // ---------------------------------------------------------------- invariant

  function Length(clock: nat -> Timespec, v: Interval): int { Nanos(clock(v.to)) - Nanos(clock(v.from)) }

  /** The time coroutine i has run, interval by interval. */
  function Spent(clock: nat -> Timespec, log: seq<Interval>, i: nat): int {
    if log == [] then 0 else
    var last := log[|log| - 1];
    Spent(clock, log[..|log| - 1], i) + if last.coro == i then Length(clock, last) else 0
  }

  /** How often coroutine i has run. */
  function Turns(log: seq<Interval>, i: nat): nat {
    if log == [] then 0 else Turns(log[..|log| - 1], i) + if log[|log| - 1].coro == i then 1 else 0
  }

  /** The intervals follow one another, in readings between first and limit. */
  ghost predicate InTurn(log: seq<Interval>, limit: nat) {
    && (forall k | 0 <= k < |log| :: 0 < log[k].from < log[k].to < limit)
    && forall k, l | 0 <= k < l < |log| :: log[k].to < log[l].from
  }

  ghost predicate Inv(clock: nat -> Timespec, t: Timed) {
    && Prog.Inv(t.prog) && |t.stamps| == |t.work| == |t.prog.pcs|
    && InTurn(t.log, if t.running.Some? then t.began else t.ticks)
    && (forall k | 0 <= k < |t.log| :: t.log[k].coro < |t.prog.pcs|)
    && (t.running.Some? ==>
          && Prog.CanRun(t.prog, t.running.value) && 0 < t.began < t.ticks
          && t.stamps[t.running.value] == clock(t.began))
    && t.ticks == 1 + 2 * |t.log| + (if t.running.Some? then 1 else 0)
    && (forall i | 0 <= i < |t.work| :: t.work[i] == FromNanos(Spent(clock, t.log, i)))
    && TurnsOk(t.prog, t.log)
  }

  /** A coroutine has run once for every yield of it, and once more if it has returned. */
  ghost predicate TurnsOk(p: Prog.Program, log: seq<Interval>) {
    && |p.switches| == |p.pcs|
    && forall i | 0 <= i < |p.pcs| :: Turns(log, i) == p.switches[i] + if p.pcs[i].Done? then 1 else 0
  }

  lemma TurnsNext(p: Prog.Program, log: seq<Interval>, v: Interval)
    requires TurnsOk(p, log) && Prog.CanRun(p, v.coro) && Prog.Readable(p.files)
    ensures TurnsOk(Prog.Step(p, v.coro), log + [v])
  {
    Prog.StepCounts(p, v.coro);
    hide Prog.Step;
    assert (log + [v])[..|log|] == log;
  }

  lemma StartInv(clock: nat -> Timespec, files: seq<seq<int>>, coros: nat)
    requires Prog.Readable(files)
    ensures Inv(clock, Start(files, coros))
  {
    Prog.StartInv(files, coros);
  }

  lemma SpentNext(clock: nat -> Timespec, log: seq<Interval>, v: Interval, i: nat)
    ensures Spent(clock, log + [v], i) == Spent(clock, log, i) + if v.coro == i then Length(clock, v) else 0
  {
    assert (log + [v])[..|log|] == log;
  }

  lemma StepInv(clock: nat -> Timespec, t: Timed, e: Event)
    requires Inv(clock, t) && Enabled(t, e)
    ensures Inv(clock, Apply(clock, t, e))
  {
    hide Prog.Inv, Spent, Nanos, FromNanos, Prog.Step, Turns;
    if e.Suspend? {
      var i := t.running.value;
      Prog.StepInv(t.prog, i);
      var v := Interval(i, t.began, t.ticks);
      TurnsNext(t.prog, t.log, v);
      var u := Apply(clock, t, e);
      forall j | 0 <= j < |u.work| ensures u.work[j] == FromNanos(Spent(clock, u.log, j)) {
        SpentNext(clock, t.log, v, j);
        Exactly(Spent(clock, t.log, j));
      }
    }
  }

  lemma Exactly(n: int)
    ensures Nanos(FromNanos(n)) == n
  {
  }

  // ---------------------------------------------------------------- runs

  ghost predicate Legal(clock: nat -> Timespec, t: Timed, run: seq<Event>)
    decreases |run|
  {
    run == [] || (Enabled(t, run[0]) && Legal(clock, Apply(clock, t, run[0]), run[1..]))
  }

  ghost function End(clock: nat -> Timespec, t: Timed, run: seq<Event>): Timed
    requires Legal(clock, t, run)
    decreases |run|
  {
    if run == [] then t else End(clock, Apply(clock, t, run[0]), run[1..])
  }

  lemma {:induction false} RunInv(clock: nat -> Timespec, t: Timed, run: seq<Event>)
    requires Inv(clock, t) && Legal(clock, t, run)
    ensures var u := End(clock, t, run);
      && Inv(clock, u) && |u.log| + Prog.Work(u.prog) == |t.log| + Prog.Work(t.prog)
      && |u.prog.pcs| == |t.prog.pcs|
    decreases |run|
  {
    if run != [] {
      StepInv(clock, t, run[0]);
      var u := Apply(clock, t, run[0]);
      if run[0].Suspend? { Prog.StepWorks(t.prog, t.running.value); }
      hide Inv, Apply, Enabled, Prog.Work;
      RunInv(clock, u, run[1..]);
    }
  }

  /** All coroutines together. */
  function SpentBy(clock: nat -> Timespec, log: seq<Interval>, n: nat): int {
    if n == 0 then 0 else SpentBy(clock, log, n - 1) + Spent(clock, log, n - 1)
  }

  lemma {:induction false} SpentByNext(clock: nat -> Timespec, log: seq<Interval>, v: Interval, n: nat)
    ensures SpentBy(clock, log + [v], n) == SpentBy(clock, log, n) + if v.coro < n then Length(clock, v) else 0
  {
    if n > 0 {
      SpentByNext(clock, log, v, n - 1);
      SpentNext(clock, log, v, n - 1);
    }
  }

  /** Intervals that follow one another are together no longer than the time up to the last of them. */
  lemma {:induction false} Within(clock: nat -> Timespec, log: seq<Interval>, limit: nat, n: nat)
    requires Steady(clock) && InTurn(log, limit) && forall k | 0 <= k < |log| :: log[k].coro < n
    ensures SpentBy(clock, log, n)
      <= Nanos(clock(if log == [] then 0 else log[|log| - 1].to)) - Nanos(clock(0))
    decreases |log|
  {
    if log == [] {
      NothingSpent(clock, n);
    } else {
      var (before, last) := (log[..|log| - 1], log[|log| - 1]);
      var was := if before == [] then 0 else before[|before| - 1].to;
      assert log == before + [last] && InTurn(before, limit) && was <= last.from;
      assert Nanos(clock(was)) <= Nanos(clock(last.from));
      hide Nanos, SpentBy, Spent, InTurn, Steady;
      Within(clock, before, limit, n);
      SpentByNext(clock, before, last, n);
    }
  }

  lemma {:induction false} NothingSpent(clock: nat -> Timespec, n: nat)
    ensures SpentBy(clock, [], n) == 0
  {
    if n > 0 { NothingSpent(clock, n - 1); }
  }

  function TotalTime(work: seq<Timespec>): int {
    if work == [] then 0 else TotalTime(work[..|work| - 1]) + Nanos(work[|work| - 1])
  }

  lemma {:induction false} TotalIsSpent(clock: nat -> Timespec, work: seq<Timespec>, log: seq<Interval>)
    requires forall i | 0 <= i < |work| :: work[i] == FromNanos(Spent(clock, log, i))
    ensures TotalTime(work) == SpentBy(clock, log, |work|)
  {
    if work != [] { TotalIsSpent(clock, work[..|work| - 1], log); }
  }

  // ---------------------------------------------------------------- the log, by the run alone

  /** The log after the events of past: the k-th resume got control at reading 2k + 1 and gave it back at 2k + 2. */
  ghost predicate Follows(t: Timed, past: seq<Event>) {
    && |past| == 2 * |t.log| + (if t.running.Some? then 1 else 0) && t.ticks == |past| + 1
    && (t.running.Some? ==> past[2 * |t.log|] == Resume(t.running.value) && t.began == 2 * |t.log| + 1)
    && forall k | 0 <= k < |t.log| ::
         past[2 * k] == Resume(t.log[k].coro) && t.log[k].from == 2 * k + 1 && t.log[k].to == 2 * k + 2
  }

  lemma {:induction false} FollowsRun(clock: nat -> Timespec, t: Timed, past: seq<Event>, run: seq<Event>)
    requires Follows(t, past) && Legal(clock, t, run)
    ensures Follows(End(clock, t, run), past + run)
    decreases |run|
  {
    if run == [] {
      assert past + [] == past;
    } else {
      hide Prog.Step, FromNanos, Nanos;
      FollowsRun(clock, Apply(clock, t, run[0]), past + [run[0]], run[1..]);
      assert past + run == (past + [run[0]]) + run[1..];
    }
  }

  /** In every run, the k-th entry of the log is the k-th turn of the run: who was resumed, and from when to when. */
  lemma LogIsRun(clock: nat -> Timespec, files: seq<seq<int>>, coros: nat, run: seq<Event>)
    requires Prog.Readable(files) && Legal(clock, Start(files, coros), run)
    ensures Follows(End(clock, Start(files, coros), run), run)
  {
    FollowsRun(clock, Start(files, coros), [], run);
    assert [] + run == run;
  }

  /** What the clock shows for the first n turns of the run that resume coroutine i. */
  function TurnTime(clock: nat -> Timespec, run: seq<Event>, i: nat, n: nat): int
    requires 2 * n <= |run|
  {
    if n == 0 then 0 else
      TurnTime(clock, run, i, n - 1)
      + if run[2 * n - 2] == Resume(i) then Nanos(clock(2 * n)) - Nanos(clock(2 * n - 1)) else 0
  }

  lemma {:induction false} SpentIsTurnTime(clock: nat -> Timespec, t: Timed, run: seq<Event>, i: nat, n: nat)
    requires Follows(t, run) && n <= |t.log|
    ensures Spent(clock, t.log[..n], i) == TurnTime(clock, run, i, n)
  {
    if n > 0 {
      SpentIsTurnTime(clock, t, run, i, n - 1);
      hide Nanos;
      var last := t.log[n - 1];
      assert t.log[..n] == t.log[..n - 1] + [last];
      SpentNext(clock, t.log[..n - 1], last, i);
      assert run[2 * (n - 1)] == Resume(last.coro) && last.from == 2 * n - 1 && last.to == 2 * n;
    }
  }

  // ---------------------------------------------------------------- what is accounted

  /**
   * A coroutine that is about to give control back finds in prev_timestamp the reading taken when it got control,
   * whoever ran before it and however often.
   */
  lemma OwnTimestamp(clock: nat -> Timespec, files: seq<seq<int>>, coros: nat, run: seq<Event>)
    requires Prog.Readable(files) && Legal(clock, Start(files, coros), run)
    requires Enabled(End(clock, Start(files, coros), run), Suspend)
    ensures var t := End(clock, Start(files, coros), run);
      t.stamps[t.running.value] == clock(t.began) && t.began + 1 == t.ticks
  {
    StartInv(clock, files, coros);
    OwnReading(clock, Start(files, coros), run);
    RunInv(clock, Start(files, coros), run);
  }

  /** Nothing else reads the clock while a coroutine runs. */
  lemma {:induction false} OwnReading(clock: nat -> Timespec, t: Timed, run: seq<Event>)
    requires Legal(clock, t, run) && (t.running.Some? ==> t.began + 1 == t.ticks)
    ensures End(clock, t, run).running.Some? ==> End(clock, t, run).began + 1 == End(clock, t, run).ticks
    decreases |run|
  {
    if run != [] { OwnReading(clock, Apply(clock, t, run[0]), run[1..]); }
  }

  /** The intervals in which coroutines run do not overlap, for any clock that does not go back. */
  lemma Disjoint(clock: nat -> Timespec, files: seq<seq<int>>, coros: nat, run: seq<Event>, k: nat, l: nat)
    requires Steady(clock) && Prog.Readable(files) && Legal(clock, Start(files, coros), run)
    requires k < l < |End(clock, Start(files, coros), run).log|
    ensures var log := End(clock, Start(files, coros), run).log;
      && Nanos(clock(0)) <= Nanos(clock(log[k].from)) <= Nanos(clock(log[k].to))
      && Nanos(clock(log[k].to)) <= Nanos(clock(log[l].from)) <= Nanos(clock(log[l].to))
  {
    StartInv(clock, files, coros);
    RunInv(clock, Start(files, coros), run);
    hide Prog.Inv, Spent, Nanos;
  }

  /**
   * For any interleaving: every segment run is timed; each coroutine is charged exactly what the clock shows for the
   * turns that resumed it, and stays normalised; and all together they are charged no more than the time since the
   * program started.
   */
  lemma ExactTimes(clock: nat -> Timespec, files: seq<seq<int>>, coros: nat, run: seq<Event>)
    requires Steady(clock) && Prog.Readable(files) && Legal(clock, Start(files, coros), run)
    ensures var t := End(clock, Start(files, coros), run);
      && t.prog.next <= |t.prog.files| && Prog.Readable(t.prog.files)
      && |t.log| + Prog.Work(t.prog) == Prog.Work(Prog.Start(files, coros)) && |t.work| == coros
      && (forall i | 0 <= i < coros ::
            Normal(t.work[i]) && Nanos(t.work[i]) == TurnTime(clock, run, i, |run| / 2))
      && TotalTime(t.work) <= Nanos(clock(t.ticks)) - Nanos(clock(0))
  {
    StartInv(clock, files, coros);
    RunInv(clock, Start(files, coros), run);
    var t := End(clock, Start(files, coros), run);
    InvTimes(clock, t);
    LogIsRun(clock, files, coros, run);
    hide Inv, Prog.Inv, Spent, Nanos, TurnTime;
    assert t.log[..|t.log|] == t.log && |run| / 2 == |t.log|;
    forall i | 0 <= i < coros ensures Spent(clock, t.log, i) == TurnTime(clock, run, i, |run| / 2) {
      SpentIsTurnTime(clock, t, run, i, |t.log|);
    }
  }

  /** With every coroutine returned, each has run once more than it has yielded. */
  lemma TurnsAtEnd(clock: nat -> Timespec, files: seq<seq<int>>, coros: nat, run: seq<Event>)
    requires Prog.Readable(files) && Legal(clock, Start(files, coros), run)
    requires Prog.AllDone(End(clock, Start(files, coros), run).prog)
    ensures var t := End(clock, Start(files, coros), run);
      |t.prog.switches| == coros && forall i | 0 <= i < coros :: Turns(t.log, i) == t.prog.switches[i] + 1
  {
    StartInv(clock, files, coros);
    RunInv(clock, Start(files, coros), run);
  }

  lemma InvTimes(clock: nat -> Timespec, t: Timed)
    requires Steady(clock) && Inv(clock, t)
    ensures forall i | 0 <= i < |t.work| :: Normal(t.work[i]) && Nanos(t.work[i]) == Spent(clock, t.log, i)
    ensures TotalTime(t.work) <= Nanos(clock(t.ticks)) - Nanos(clock(0))
  {
    hide Prog.Inv, Spent;
    Within(clock, t.log, t.ticks, |t.work|);
    TotalIsSpent(clock, t.work, t.log);
    var last := if t.log == [] then 0 else t.log[|t.log| - 1].to;
    assert Nanos(clock(last)) <= Nanos(clock(t.ticks));
  }
}
