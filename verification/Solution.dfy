/**
 * The program of solution.c: its coroutines on the scheduler of libcoro.c, then the concatenation and the
 * final sort in main.
 */
module Solution {
  import opened LibCoro
  import opened MergeSort
  import opened SortJob
  import opened WorkTime
  import Coro = CoroModel
  import Prog = SortProgram
  import Time = TimedRun

  // ---------------------------------------------------------------- the scheduler drives the coroutines

  /** The scheduler and the program agree on who has returned and who has yielded how often. */
  ghost predicate Together(s: Coro.Coros, p: Prog.Program) {
    && |s.coros| == |p.pcs| == |p.switches|
    && forall i | 0 <= i < |p.pcs| :: s.coros[i].switches == p.switches[i] && (i in s.finished <==> p.pcs[i].Done?)
  }

  /** The coroutine that runs can run. */
  lemma RunnableOnTurn(s: Coro.Coros, p: Prog.Program)
    requires Coro.Inv(s) && Together(s, p) && s.control.At?
    ensures Prog.CanRun(p, s.control.id)
    ensures Coro.Enabled(s, Coro.Yield) && Coro.Enabled(s, Coro.Finish)
  {
    hide Coro.Fair, Coro.ReturnedOk;
  }

  lemma StillTogether(s: Coro.Coros, p: Prog.Program)
    requires Together(s, p) && s.control.At? && Prog.CanRun(p, s.control.id) && Prog.Readable(p.files)
    requires Coro.Enabled(s, Coro.Yield) && Coro.Enabled(s, Coro.Finish)
    ensures var q := Prog.Step(p, s.control.id);
      var a := if q.pcs[s.control.id].Done? then Coro.Finish else Coro.Yield;
      Together(Coro.Apply(s, a).0, q)
  {
    hide Sorted, Yields, Prog.Store;
    Prog.StoreKeeps(p, s.control.id);
  }

  /** A coroutine's turn: it runs to its next coro_yield, or to the end of coro_body. */
  method Turn(sched: Scheduler, job: Job)
    requires sched.Valid() && job.Valid() && Together(sched.view, job.view) && sched.view.control.At?
    modifies sched, sched.nodes, sched.arena, sched.coroSched, job, job.destinations, job.contexts
    ensures sched.Valid() && job.Valid() && Together(sched.view, job.view)
    ensures sched.arena == old(sched.arena) && sched.nodes == old(sched.nodes)
    ensures Prog.CanRun(old(job.view), old(sched.view.control.id)) && Prog.Inv(old(job.view))
    ensures job.view == Prog.Step(old(job.view), old(sched.view.control.id))
    ensures |job.times.log| == old(|job.times.log|) + 1
    ensures !sched.view.control.Idle? && sched.view.list == old(sched.view.list)
  {
    hide Coro.Inv, Coro.Apply, Scheduler.Shows, Job.Valid, Prog.Inv, Prog.Step, SortJob.Turn, Together;
    Running(sched);
    Parts(job);
    Timing(job);
    RunnableOnTurn(sched.view, job.view);
    StillTogether(sched.view, job.view);
    var i := sched.coroThis.id;
    var finished := job.RunSegment(i);
    TurnKeeps(sched.view);
    if finished { sched.Finish(); } else { sched.Yield(); }
  }

  lemma Running(sched: Scheduler)
    requires sched.Valid()
    ensures sched.view.control.At? ==> sched.coroThis.id == sched.view.control.id && sched.coroThis != sched.coroSched
    ensures !sched.view.control.At? ==> sched.coroThis == sched.coroSched
    ensures sched.isSchedWaiting == sched.view.waiting
    ensures sched.isSchedWaiting <==> !sched.view.control.Idle?
    ensures sched.view.control.Idle? || sched.view.control.InWait? || sched.view.control.At?
    ensures |sched.arena| == |sched.view.coros| && (sched.view.control.InWait? ==> sched.view.list != [])
  {
    hide Coro.Fair, Coro.ReturnedOk;
  }

  lemma Parts(job: Job)
    requires job.Valid()
    ensures Prog.Inv(job.view) && Prog.Readable(job.view.files)
  {
  }

  /** A turn adds one interval to the log. */
  lemma Timing(job: Job)
    requires job.Valid()
    ensures forall i | Time.Enabled(job.times, Time.Resume(i)) ::
      |SortJob.Turn(job.clock, job.times, i).log| == |job.times.log| + 1
  {
    hide Job.ShowsThreads, Job.ShowsFiles, Job.ShowsTimes, Time.Inv, Prog.Inv, Prog.Step;
  }

  lemma TurnKeeps(s: Coro.Coros)
    requires s.control.At? && Coro.Enabled(s, Coro.Yield) && Coro.Enabled(s, Coro.Finish)
    ensures forall a | a == Coro.Yield || a == Coro.Finish ::
      Coro.Apply(s, a).0.list == s.list && !Coro.Apply(s, a).0.control.Idle?
  {
  }

  /** What a turn of the scheduler's loop does to the list, and that the counts of the coroutines stay. */
  lemma ScanSteps(s: Coro.Coros, a: Coro.Action)
    requires Coro.Enabled(s, a) && (a == Coro.Wait || a == Coro.Resume)
    ensures var (t, reply) := Coro.Apply(s, a);
      && t.coros == s.coros && t.finished == s.finished
      && (reply.Returned? ==> |t.list| < |s.list| && t.control.Idle?)
      && (reply.Nothing? ==> t.list == s.list && t.control.At?)
      && (reply.Null? ==> s.list == t.list == [] && t.control.Idle?)
  {
  }

  /** The steps the coroutines have left. */
  ghost function Todo(p: Prog.Program): nat { if Prog.Inv(p) then Prog.Work(p) else 0 }

  /** Inside coro_sched_wait: does the scheduler itself run? */
  function Phase(c: Coro.Control): nat { if c.At? then 0 else 1 }

  /** coro_sched_wait, with everything the coroutines do before it returns. */
  method SchedWait(sched: Scheduler, job: Job) returns (c: CoroNode?)
    requires sched.Valid() && job.Valid() && Together(sched.view, job.view) && sched.view.control.Idle?
    modifies sched, sched.nodes, sched.arena, sched.coroSched, job, job.destinations, job.contexts
    ensures sched.Valid() && job.Valid() && Together(sched.view, job.view) && sched.view.control.Idle?
    ensures sched.arena == old(sched.arena) && forall i | 0 <= i < |sched.nodes| :: sched.nodes[i] in old(sched.nodes)
    ensures job.view.files == old(job.view.files) && |job.view.pcs| == old(|job.view.pcs|)
    ensures Prog.Inv(job.view) && Todo(job.view) <= Todo(old(job.view))
    ensures |job.times.log| + Todo(job.view) == old(|job.times.log|) + Todo(old(job.view))
    ensures c == null ==> sched.view.list == []
    ensures c != null ==> |sched.view.list| < |old(sched.view.list)|
  {
    hide Coro.Inv, Coro.Apply, Scheduler.Valid, Job.Valid, Prog.Inv, Prog.Step, Todo, Together;
    Parts(job);
    ScanSteps(sched.view, Coro.Wait);
    TogetherAfter(sched.view, Coro.Wait, job.view);
    c := sched.Wait();
    Running(sched);
    while c == null && sched.isSchedWaiting
      invariant sched.Valid() && job.Valid() && Together(sched.view, job.view)
      invariant sched.arena == old(sched.arena)
      invariant forall i | 0 <= i < |sched.nodes| :: sched.nodes[i] in old(sched.nodes)
      invariant job.view.files == old(job.view.files) && |job.view.pcs| == old(|job.view.pcs|)
      invariant Prog.Inv(job.view) && Todo(job.view) <= Todo(old(job.view))
      invariant |job.times.log| + Todo(job.view) == old(|job.times.log|) + Todo(old(job.view))
      invariant sched.isSchedWaiting <==> !sched.view.control.Idle?
      invariant c != null ==> sched.view.control.Idle? && |sched.view.list| < |old(sched.view.list)|
      invariant c == null && sched.view.control.Idle? ==> sched.view.list == []
      invariant |sched.view.list| <= |old(sched.view.list)|
      decreases Todo(job.view), |sched.view.list|, Phase(sched.view.control)
    {
      Running(sched);
      if sched.coroThis != sched.coroSched {
        Parts(job);
        WorkFalls(sched, job);
        Turn(sched, job);
      } else {
        ScanSteps(sched.view, Coro.Resume);
        TogetherAfter(sched.view, Coro.Resume, job.view);
        c := sched.Resume();
      }
      Running(sched);
      Parts(job);
    }
  }

  lemma WorkFalls(sched: Scheduler, job: Job)
    requires sched.Valid() && job.Valid() && Together(sched.view, job.view) && sched.view.control.At?
    ensures Prog.CanRun(job.view, sched.view.control.id) && Prog.Inv(job.view)
    ensures var q := Prog.Step(job.view, sched.view.control.id);
      Prog.Inv(q) && Todo(q) + 1 == Todo(job.view) && q.files == job.view.files && |q.pcs| == |job.view.pcs|
  {
    hide Coro.Inv, Scheduler.Shows, Prog.Step, Prog.Work, Prog.Inv;
    Parts(job);
    RunnableOnTurn(sched.view, job.view);
    Prog.StepInv(job.view, sched.view.control.id);
    Prog.StepWorks(job.view, sched.view.control.id);
  }

  lemma TogetherAfter(s: Coro.Coros, a: Coro.Action, p: Prog.Program)
    requires Coro.Enabled(s, a) && (a == Coro.Wait || a == Coro.Resume) && Together(s, p)
    ensures Together(Coro.Apply(s, a).0, p)
  {
    hide Coro.Apply;
    ScanSteps(s, a);
  }

  /** Lines 107-111. */
  method CreateCoroutines(corosTotal: nat, ghost p: Prog.Program) returns (sched: Scheduler)
    requires p == Prog.Start(p.files, corosTotal)
    ensures sched.Valid() && fresh(sched) && fresh(sched.arena) && fresh(sched.nodes) && fresh(sched.coroSched)
    ensures sched.view.control.Idle? && |sched.view.coros| == corosTotal && Together(sched.view, p)
  {
    hide Coro.Inv, Coro.Apply, Scheduler.Valid;
    sched := new Scheduler();
    for i := 0 to corosTotal
      invariant sched.Valid() && fresh(sched.arena) && fresh(sched.nodes) && fresh(sched.coroSched)
      invariant sched.view.control.Idle? && |sched.view.coros| == i && sched.view.finished == {}
      invariant forall k | 0 <= k < i :: sched.view.coros[k].switches == 0
    {
      NewCoro(sched.view);
      var _ := sched.New();
    }
  }

  /** Lines 113-116. */
  method WaitAll(sched: Scheduler, job: Job)
    requires sched.Valid() && job.Valid() && Together(sched.view, job.view) && sched.view.control.Idle?
    modifies sched, sched.nodes, sched.arena, sched.coroSched, job, job.destinations, job.contexts
    ensures sched.Valid() && job.Valid() && Together(sched.view, job.view)
    ensures sched.view.control.Idle? && sched.view.list == []
    ensures sched.arena == old(sched.arena) && forall i | 0 <= i < |sched.nodes| :: sched.nodes[i] in old(sched.nodes)
    ensures job.view.files == old(job.view.files) && |job.view.pcs| == old(|job.view.pcs|)
    ensures |job.times.log| + Todo(job.view) == old(|job.times.log|) + Todo(old(job.view))
  {
    hide Coro.Inv, Coro.Apply, Scheduler.Valid, Prog.Inv, Todo, Job.Valid, Together;
    var c := SchedWait(sched, job);
    while c != null
      invariant sched.Valid() && job.Valid() && Together(sched.view, job.view) && sched.view.control.Idle?
      invariant sched.arena == old(sched.arena)
      invariant forall i | 0 <= i < |sched.nodes| :: sched.nodes[i] in old(sched.nodes)
      invariant job.view.files == old(job.view.files) && |job.view.pcs| == old(|job.view.pcs|)
      invariant c == null ==> sched.view.list == []
      invariant |job.times.log| + Todo(job.view) == old(|job.times.log|) + Todo(old(job.view))
      decreases Todo(job.view), |sched.view.list|, if c == null then 0 else 1
    {
      c := SchedWait(sched, job);
    }
  }

  /** Lines 107-116: create the coroutines, and wait until the scheduler has returned them all. */
  method RunCoroutines(inputs: seq<array<int>>, corosTotal: nat, clock: nat -> Timespec)
    returns (sched: Scheduler, job: Job)
    requires Steady(clock) && corosTotal > 0 && forall f | 0 <= f < |inputs| :: inputs[f].Length > 0
    ensures sched.Valid() && job.Valid() && Together(sched.view, job.view)
    ensures fresh(sched) && fresh(sched.arena) && fresh(sched.nodes) && fresh(sched.coroSched)
    ensures fresh(job) && fresh(job.destinations) && fresh(job.contexts) && job.clock == clock
    ensures sched.view.control.Idle? && sched.view.list == [] && |sched.view.coros| == corosTotal
    ensures job.view.files == Contents(inputs) && Prog.AllDone(job.view) && |job.view.pcs| == corosTotal
    ensures Prog.Readable(job.view.files) && |job.times.log| == Prog.Work(Prog.Start(job.view.files, corosTotal))
  {
    hide Coro.Inv, Coro.Apply, Scheduler.Valid, Prog.Inv, Todo, Job.Valid, Together;
    job := new Job(inputs, corosTotal, clock);
    Begins(job, corosTotal);
    sched := CreateCoroutines(corosTotal, job.view);
    WaitAll(sched, job);
    Returned(sched, job);
    NothingTodo(job);
  }

  /** Before the first turn nothing is timed. */
  lemma Begins(job: Job, coros: nat)
    requires job.Valid() && job.view == Prog.Start(job.view.files, coros)
    ensures Prog.Readable(job.view.files) && Todo(job.view) == Prog.Work(Prog.Start(job.view.files, coros))
  {
  }

  lemma NothingTodo(job: Job)
    requires job.Valid() && Prog.AllDone(job.view) && |job.view.pcs| > 0
    ensures Todo(job.view) == 0
  {
    assert job.view.pcs[0].Done?;
    NoneUndone(job.view.pcs);
  }

  lemma {:induction false} NoneUndone(pcs: seq<Prog.Pc>)
    requires forall i | 0 <= i < |pcs| :: pcs[i].Done?
    ensures Prog.LeftOf(pcs) == 0 && Prog.Undone(pcs) == 0
  {
    if pcs != [] { NoneUndone(pcs[1..]); }
  }

  lemma NewCoro(s: Coro.Coros)
    requires s.control.Idle?
    ensures Coro.Enabled(s, Coro.New)
    ensures var t := Coro.Apply(s, Coro.New).0;
      && t.control.Idle? && t.finished == s.finished && |t.coros| == |s.coros| + 1
      && t.coros[..|s.coros|] == s.coros && t.coros[|s.coros|].switches == 0
  {
  }

  lemma Returned(sched: Scheduler, job: Job)
    requires sched.Valid() && Together(sched.view, job.view) && sched.view.list == []
    ensures Prog.AllDone(job.view) && |sched.view.coros| == |job.view.pcs|
  {
    hide Coro.Fair, Coro.ReturnedOk, Scheduler.Shows;
  }

  // ---------------------------------------------------------------- main

  function Flatten(arrays: seq<seq<int>>): (r: seq<int>) {
    if arrays == [] then [] else Flatten(arrays[..|arrays| - 1]) + arrays[|arrays| - 1]
  }

  lemma FlattenNext(arrays: seq<seq<int>>, n: nat)
    requires n < |arrays|
    ensures Flatten(arrays[..n + 1]) == Flatten(arrays[..n]) + arrays[n]
  {
    assert arrays[..n + 1][..n] == arrays[..n];
  }

  lemma {:induction false} FlattenFits(arrays: seq<seq<int>>, n: nat)
    requires n <= |arrays|
    ensures |Flatten(arrays[..n])| <= |Flatten(arrays)|
    decreases |arrays| - n
  {
    if n == |arrays| {
      assert arrays[..n] == arrays;
    } else {
      FlattenNext(arrays, n);
      FlattenFits(arrays, n + 1);
    }
  }

  lemma {:induction false} FlattenPermutes(a: seq<seq<int>>, b: seq<seq<int>>)
    requires |a| == |b| && forall f | 0 <= f < |a| :: multiset(a[f]) == multiset(b[f])
    ensures multiset(Flatten(a)) == multiset(Flatten(b))
  {
    if a != [] { FlattenPermutes(a[..|a| - 1], b[..|b| - 1]); }
  }

  /** Lines 120-131. */
  method Concatenate(job: Job) returns (allNumbers: array<int>)
    requires job.Valid() && forall f | 0 <= f < |job.view.dest| :: job.view.dest[f] != []
    ensures fresh(allNumbers) && allNumbers[..] == Flatten(job.view.dest)
  {
    hide Prog.Inv, Flatten;
    ghost var dest := job.view.dest;
    DestCount(job);
    assert dest[..0] == [];
    NoneFlat();
    var finalLength := 0;
    for i := 0 to job.destinations.Length
      invariant finalLength == |Flatten(dest[..i])|
    {
      FlattenNext(dest, i);
      finalLength := finalLength + job.destinations[i].Length;
    }
    assert dest[..|dest|] == dest;
    allNumbers := new int[finalLength];
    var idx := 0;
    for i := 0 to job.destinations.Length
      invariant idx == |Flatten(dest[..i])| <= finalLength && allNumbers[..idx] == Flatten(dest[..i])
    {
      FlattenNext(dest, i);
      FlattenFits(dest, i + 1);
      var from := job.destinations[i];
      forall k | 0 <= k < from.Length { allNumbers[idx + k] := from[k]; }
      assert allNumbers[..idx + from.Length] == allNumbers[..idx] + from[..];
      idx := idx + from.Length;
    }
    assert allNumbers[..idx] == allNumbers[..];
  }

  lemma NoneFlat()
    ensures Flatten([]) == []
  {
  }

  lemma DestCount(job: Job)
    requires job.Valid()
    ensures job.destinations.Length == |job.view.dest|
  {
  }

  /** What the coroutines have left for main. */
  lemma AllSorted(job: Job)
    requires job.Valid() && Prog.AllDone(job.view) && |job.view.pcs| > 0
    ensures var p := job.view;
      && Prog.Readable(p.files) && |p.dest| == |p.files| == |p.claims|
      && (forall f | 0 <= f < |p.files| :: p.dest[f] != [] && multiset(p.dest[f]) == multiset(p.files[f]))
      && (forall f | 0 <= f < |p.files| :: p.dest[f] == Sorted(p.files[f]) && p.claims[f] < |p.pcs|)
      && Prog.Total(p.switches) == Prog.Before(p.files, |p.files|)
  {
    hide Sorted, Yields, Prog.Before, Prog.Claimed, Prog.SwitchesOk;
    var p := job.view;
    assert p.pcs[0].Done?;
    Prog.SwitchesAtEnd(p);
    forall f | 0 <= f < |p.files|
      ensures p.dest[f] == Sorted(p.files[f]) && p.dest[f] != [] && multiset(p.dest[f]) == multiset(p.files[f])
    {
      assert p.pcs[p.claims[f]].Done?;
      SortsIntoOrder(p.files[f]);
    }
  }

  /** Sorting the sorted files gives what sorting the files would have given. */
  lemma SortAgain(files: seq<seq<int>>, dest: seq<seq<int>>)
    requires |dest| == |files| > 0
    requires forall f | 0 <= f < |files| :: files[f] != [] && multiset(dest[f]) == multiset(files[f])
    ensures Flatten(dest) != [] && Flatten(files) != []
    ensures Sorted(Flatten(dest)) == Sorted(Flatten(files))
  {
    hide Sorted;
    FlattenPermutes(dest, files);
    assert Flatten(files) != [];
    assert |multiset(Flatten(dest))| == |multiset(Flatten(files))|;
    SortsIntoOrder(Flatten(dest));
    SortsIntoOrder(Flatten(files));
    OrderIsUnique(Sorted(Flatten(dest)), Sorted(Flatten(files)));
  }

  /** What Valid says about the times of a job that is over. */
  lemma Timed(job: Job)
    requires job.Valid()
    ensures job.times.ticks == job.ticks && |job.contexts| == |job.view.pcs| && Time.InTurn(job.times.log, job.ticks)
    ensures forall i | 0 <= i < |job.contexts| ::
      && Normal(job.contexts[i].coroWorkTime)
      && Nanos(job.contexts[i].coroWorkTime) == Time.Spent(job.clock, job.times.log, i)
    ensures forall i | 0 <= i < |job.contexts| :: job.contexts[i].coroWorkTime == job.times.work[i]
    ensures |job.times.work| == |job.contexts| && Steady(job.clock) && Time.TurnsOk(job.view, job.times.log)
    ensures Time.TotalTime(job.times.work) <= Nanos(job.clock(job.ticks)) - Nanos(job.clock(0))
  {
    hide Prog.Inv, Job.ShowsThreads, Job.ShowsFiles;
    Time.InvTimes(job.clock, job.times);
  }

  /**
   * Lines 90-145, from the arrays read to the array written: whatever the number of coroutines, the result is
   * the numbers of all the files in order, every coroutine has been returned, and the coroutines have switched
   * once for every call of the sort on a file. Each is charged exactly for its own turns, which do not overlap,
   * and all together for no more than the time of the program.
   */
  method SortFiles(inputs: seq<array<int>>, corosTotal: nat, clock: nat -> Timespec)
    returns (result: array<int>, programWorkTime: Timespec, ghost sched: Scheduler, ghost job: Job)
    requires Steady(clock) && corosTotal > 0 && inputs != [] && forall f | 0 <= f < |inputs| :: inputs[f].Length > 0
    ensures Flatten(Contents(inputs)) != [] && result[..] == Sorted(Flatten(Contents(inputs)))
    ensures IsSorted(result[..]) && multiset(result[..]) == multiset(Flatten(Contents(inputs)))
    ensures sched.Valid() && sched.view.list == [] && |sched.arena| == corosTotal == |job.view.switches|
    ensures forall i | 0 <= i < corosTotal ::
      sched.arena[i].isFinished && sched.arena[i].switchCount == job.view.switches[i]
    ensures Prog.Readable(Contents(inputs)) && Prog.Total(job.view.switches) == Prog.Before(Contents(inputs), |inputs|)
    ensures |job.times.log| == Prog.Work(Prog.Start(Contents(inputs), corosTotal))
    ensures Time.InTurn(job.times.log, job.ticks)
    ensures forall i | 0 <= i < corosTotal :: Time.Turns(job.times.log, i) == sched.arena[i].switchCount + 1
    ensures |job.contexts| == corosTotal && forall i | 0 <= i < corosTotal ::
      Normal(job.contexts[i].coroWorkTime) && Nanos(job.contexts[i].coroWorkTime) == Time.Spent(clock, job.times.log, i)
    ensures programWorkTime == FromNanos(Nanos(clock(job.ticks)) - Nanos(clock(0)))
    ensures Time.TotalTime(job.times.work) <= Nanos(programWorkTime)
    ensures |job.times.work| == corosTotal
    ensures forall i | 0 <= i < corosTotal :: job.contexts[i].coroWorkTime == job.times.work[i]
  {
    hide Coro.Inv, Scheduler.Valid, Prog.Inv, Job.Valid;
    hide Sorted, Yields, Copies, SortIx, Flatten, Prog.Before, Prog.Work, Time.Turns;
    var start := clock(0);
    var live, done := RunCoroutines(inputs, corosTotal, clock);
    sched, job := live, done;
    AllSorted(job);
    Timed(job);
    ghost var files := job.view.files;
    SortAgain(files, job.view.dest);
    var allNumbers := Concatenate(done);
    SortsIntoOrder(Flatten(files));
    result := SortAll(allNumbers, live);
    AllCounts(live, job);
    programWorkTime := TimeDiff(start, clock(done.ticks));
  }

  /** Line 135: the sort runs in the scheduler's own context, which yields to itself. */
  method SortAll(numbers: array<int>, sched: Scheduler) returns (result: array<int>)
    requires sched.Valid() && numbers.Length > 0 && sched.view.control.Idle?
    modifies sched, sched.arena`switchCount, sched.coroSched`switchCount
    ensures fresh(result) && result[..] == Sorted(numbers[..])
    ensures sched.Valid() && sched.arena == old(sched.arena)
    ensures sched.view == old(sched.view).(schedSwitches := old(sched.view).schedSwitches + Yields(numbers.Length))
  {
    hide Coro.Inv, Scheduler.Valid, Sorted, Yields, Copies, SortIx;
    var switches, copied;
    ghost var positions;
    result, switches, copied, positions := GetSortedNumbers(numbers, 0, numbers.Length);
    assert numbers[0..numbers.Length] == numbers[..];
    ghost var sorted := result[..];
    for i := 0 to switches
      invariant sched.Valid() && sched.view == old(sched.view).(schedSwitches := old(sched.view).schedSwitches + i)
      invariant sched.arena == old(sched.arena) && result[..] == sorted
    {
      SelfYield(sched.view);
      sched.Yield();
    }
  }

  lemma SelfYield(s: Coro.Coros)
    requires s.control.Idle?
    ensures Coro.Enabled(s, Coro.Yield)
    ensures Coro.Apply(s, Coro.Yield).0 == s.(schedSwitches := s.schedSwitches + 1)
  {
  }

  lemma AllCounts(sched: Scheduler, job: Job)
    requires sched.Valid() && Together(sched.view, job.view) && sched.view.list == []
    ensures |sched.arena| == |job.view.switches|
    ensures forall i | 0 <= i < |sched.arena| ::
      sched.arena[i].isFinished && sched.arena[i].switchCount == job.view.switches[i]
  {
    hide Coro.Fair, Coro.ReturnedOk;
  }
}
