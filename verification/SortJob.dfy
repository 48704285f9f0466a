/**
 * What the coroutines of solution.c share and what each of them keeps: the files, the next one to claim, the
 * destinations; the open calls of a sort that stands at a yield; and the timestamps.
 */
module SortJob {
  import opened MergeSort
  import opened SuspendedSort
  import opened WorkTime
  import Prog = SortProgram
  import Time = TimedRun

  /**
   * Where a coroutine stands between its turns. value is what the innermost call is about to return; positions and
   * frames say where its numbers and those of the open calls come from.
   */
  datatype Thread =
    | NotStarted
    | InSort(file: nat, value: array<int>, calls: seq<Call>, ghost positions: seq<nat>, ghost frames: seq<Frame>)
    | Ended

  ghost function ThreadArrays(th: Thread): set<array<int>> {
    if th.InSort? then {th.value} + Arrays(th.calls) else {}
  }

  ghost function Contents(arrays: seq<array<int>>): (r: seq<seq<int>>)
    reads arrays
    ensures |r| == |arrays| && forall f | 0 <= f < |r| :: r[f] == arrays[f][..]
  {
    seq(|arrays|, f requires 0 <= f < |arrays| reads arrays => arrays[f][..])
  }

  /** One turn of coroutine i, with its two clock readings. */
  ghost function Turn(clock: nat -> Timespec, t: Time.Timed, i: nat): Time.Timed
    requires Time.Enabled(t, Time.Resume(i))
  {
    Time.Apply(clock, Time.Apply(clock, t, Time.Resume(i)), Time.Suspend)
  }

  class Job {
    const inputs: seq<array<int>>
    const destinations: array<array?<int>>
    const contexts: seq<Context>
    const clock: nat -> Timespec
    var nextFileIdx: nat
    var threads: seq<Thread>
    /** How many readings the clock has given. */
    var ticks: nat

    /** The arrays that suspended sorts hold, and the states shown. */
    ghost var held: set<array<int>>
    ghost var view: Prog.Program
    ghost var times: Time.Timed

    /** The thread stands where the machine says, and its suspended sort is going to return the sorted file. */
    static ghost predicate ShowsThread(files: seq<seq<int>>, th: Thread, pc: Prog.Pc)
      reads ThreadArrays(th)
    {
      match th
      case NotStarted => pc.Fresh?
      case Ended => pc.Done?
      case InSort(file, value, calls, positions, frames) =>
        assert value in ThreadArrays(th) && Arrays(calls) <= ThreadArrays(th);
        && pc.Sorting? && pc.file == file < |files|
        && Suspended(files[file], value[..], calls, positions, frames, pc.left)
    }

    ghost predicate ShowsThreads(p: Prog.Program)
      reads `threads, `held, held
    {
      && |threads| == |p.pcs|
      && forall i | 0 <= i < |threads| :: ThreadArrays(threads[i]) <= held && ShowsThread(p.files, threads[i], p.pcs[i])
    }

    ghost predicate ShowsFiles(p: Prog.Program)
      reads inputs, destinations, set f | 0 <= f < destinations.Length :: destinations[f]
    {
      && |inputs| == |p.files| == destinations.Length <= |p.dest|
      && (forall f | 0 <= f < |inputs| :: inputs[f][..] == p.files[f])
      && (forall f | 0 <= f < destinations.Length && p.dest[f] != [] ::
            destinations[f] != null && destinations[f][..] == p.dest[f])
    }

    /** The contexts carry the stamps and the times. */
    ghost predicate ShowsTimes(t: Time.Timed)
      reads `ticks, contexts
    {
      && |contexts| == |t.stamps| == |t.work| && ticks == t.ticks
      && (forall i, j | 0 <= i < j < |contexts| :: contexts[i] != contexts[j])
      && forall i | 0 <= i < |contexts| ::
           contexts[i].prevTimestamp == t.stamps[i] && contexts[i].coroWorkTime == t.work[i]
    }

    ghost predicate Valid()
      reads this, inputs, destinations, contexts, held, set f | 0 <= f < destinations.Length :: destinations[f]
    {
      && Prog.Inv(view) && nextFileIdx == view.next && ShowsThreads(view) && ShowsFiles(view)
      && Steady(clock) && ShowsTimes(times) && Time.Inv(clock, times)
      && times.prog == view && times.running.None?
    }

    /** my_context_new for every coroutine. */
    static method NewContexts(coros: nat) returns (cs: seq<Context>)
      ensures |cs| == coros && fresh(cs)
      ensures forall i, j | 0 <= i < j < |cs| :: cs[i] != cs[j]
      ensures forall i | 0 <= i < |cs| :: cs[i].coroWorkTime == cs[i].prevTimestamp == Timespec(0, 0)
    {
      cs := [];
      while |cs| < coros
        invariant |cs| <= coros && fresh(cs)
        invariant forall i, j | 0 <= i < j < |cs| :: cs[i] != cs[j]
        invariant forall i | 0 <= i < |cs| :: cs[i].coroWorkTime == cs[i].prevTimestamp == Timespec(0, 0)
      {
        var c := new Context();
        cs := cs + [c];
      }
    }

    /** Line 93 has taken the first reading. */
    constructor (inputs: seq<array<int>>, coros: nat, clock: nat -> Timespec)
      requires Steady(clock) && forall f | 0 <= f < |inputs| :: inputs[f].Length > 0
      ensures Valid() && fresh(destinations) && fresh(contexts) && this.inputs == inputs && this.clock == clock
      ensures view == Prog.Start(Contents(inputs), coros) && times.log == []
    {
      var cs := NewContexts(coros);
      this.inputs, this.clock, contexts := inputs, clock, cs;
      destinations := new array?<int>[|inputs|](_ => null);
      nextFileIdx, ticks := 0, 1;
      threads := seq(coros, _ => NotStarted);
      held := {};
      view := Prog.Start(Contents(inputs), coros);
      times := Time.Start(Contents(inputs), coros);
      new;
      Prog.StartInv(Contents(inputs), coros);
      Time.StartInv(clock, Contents(inputs), coros);
    }

    // -------------------------------------------------------------- the clock

    /** The coroutine gets control: line 59, or line 229 after a yield. */
    method StartTurn(i: nat)
      requires ShowsTimes(times) && Time.Enabled(times, Time.Resume(i))
      modifies `ticks, `times, contexts`prevTimestamp
      ensures times == Time.Apply(clock, old(times), Time.Resume(i)) && ShowsTimes(times)
    {
      contexts[i].SetCoroTimestamp(clock(ticks));
      ticks := ticks + 1;
      times := Time.Apply(clock, times, Time.Resume(i));
    }

    /** It is about to give control back: line 225 before a yield, line 78 before the return. */
    method EndTurn(i: nat)
      requires Steady(clock) && ShowsTimes(times) && Time.Enabled(times, Time.Suspend) && Time.Inv(clock, times)
      requires times.running.value == i
      modifies `ticks, `times, contexts`coroWorkTime
      ensures times == Time.Apply(clock, old(times), Time.Suspend) && ShowsTimes(times)
    {
      hide Prog.Inv, Prog.Step, Nanos;
      var c := contexts[i];
      c.UpdateCoroWorkTime(clock(ticks));
      ticks := ticks + 1;
      times := Time.Apply(clock, times, Time.Suspend);
    }

    // -------------------------------------------------------------- the code between two yields

    method SetThread(i: nat, th: Thread, ghost p: Prog.Program, ghost pc: Prog.Pc)
      requires ShowsThreads(p) && i < |p.pcs| && ShowsThread(p.files, th, pc)
      modifies `threads, `held
      ensures ShowsThreads(p.(pcs := p.pcs[i := pc])) && threads == old(threads)[i := th]
    {
      hide ShowsThread, ThreadArrays;
      threads := threads[i := th];
      held := held + ThreadArrays(th);
    }

    /** Lines 70-72, once the sort has returned. */
    method StoreSorted(i: nat, file: nat, v: array<int>)
      requires ShowsFiles(view) && Prog.CanRun(view, i) && Prog.Readable(view.files) && |view.dest| == |view.files|
      requires view.pcs[i].Sorting? && view.pcs[i].file == file < |view.files| && v[..] == Sorted(view.files[file])
      modifies destinations
      ensures ShowsFiles(Prog.Store(view, i))
    {
      hide Sorted;
      destinations[file] := v;
    }

    /** Lines 63-66 and 70: claim the next file and sort it up to the first yield; or go to the end. */
    method ClaimNext(i: nat, ghost p: Prog.Program) returns (finished: bool)
      requires Prog.CanRun(p, i) && Prog.Readable(p.files) && nextFileIdx == p.next
      requires ShowsThreads(p) && ShowsFiles(p)
      modifies `nextFileIdx, `threads, `held
      ensures var q := Prog.Claim(p, i);
        ShowsThreads(q) && ShowsFiles(q) && nextFileIdx == q.next && (finished <==> q.pcs[i].Done?)
    {
      hide Sorted, Yields, ShowsThreads;
      finished := nextFileIdx >= |inputs|;
      if !finished {
        var file := nextFileIdx;
        nextFileIdx := nextFileIdx + 1;
        var v, calls;
        ghost var positions, frames;
        v, calls, positions, frames := StartSort(inputs[file]);
        ghost var pc := Prog.Sorting(file, Yields(inputs[file].Length) - 1);
        SetThread(i, InSort(file, v, calls, positions, frames), p, pc);
        OtherFields(p, Prog.Claim(p, i), p.pcs[i := pc]);
      } else {
        SetThread(i, Ended, p, Prog.Done);
      }
    }

    /** The threads depend only on the files and on where the coroutines stand. */
    lemma OtherFields(p: Prog.Program, q: Prog.Program, pcs: seq<Prog.Pc>)
      requires ShowsThreads(p.(pcs := pcs)) && q.files == p.files && q.pcs == pcs
      ensures ShowsThreads(q)
    {
      hide ShowsThread, ThreadArrays;
    }

    /** get_sorted_numbers on a whole file, up to its first yield. */
    method StartSort(numbers: array<int>)
      returns (v: array<int>, calls: seq<Call>, ghost positions: seq<nat>, ghost frames: seq<Frame>)
      requires numbers.Length > 0
      ensures fresh(v) && Suspended(numbers[..], v[..], calls, positions, frames, Yields(numbers.Length) - 1)
    {
      hide SortIx, Yields;
      v, calls, positions, frames := Descend(numbers, 0, numbers.Length, [], []);
    }

    lemma Stands(p: Prog.Program, i: nat)
      requires ShowsThreads(p) && i < |p.pcs|
      ensures i < |threads| && ShowsThread(p.files, threads[i], p.pcs[i])
    {
    }

    /** The sort of a thread goes on, and stands at its next yield or has returned. */
    method Advance(th: Thread, ghost p: Prog.Program, ghost pc: Prog.Pc)
      returns (done: bool, v: array<int>, calls: seq<Call>, ghost positions: seq<nat>, ghost frames: seq<Frame>)
      requires ShowsFiles(p) && ShowsThread(p.files, th, pc) && th.InSort?
      ensures pc.Sorting? && pc.file == th.file < |p.files| && (done <==> pc.left == 0) && p.files[th.file] != []
      ensures done ==> var k := p.files[th.file];
        positions == SortIx(k, 0, |k|) && v[..] == Values(k, positions)
      ensures !done ==>
        ShowsThread(p.files, InSort(th.file, v, calls, positions, frames), Prog.Sorting(th.file, pc.left - 1))
    {
      hide SortIx;
      NoneLeft(th.frames);
      done, v, calls, positions, frames := Continue(inputs[th.file], th.value, th.calls, th.positions, th.frames);
    }

    /** A sort that stands at a yield goes on: to its next yield, or to the end with the sorted file. */
    method Proceed(i: nat, th: Thread) returns (done: bool, v: array<int>)
      requires ShowsThreads(view) && ShowsFiles(view)
      requires i < |view.pcs| && i < |threads| && th == threads[i] && th.InSort?
      modifies `threads, `held
      ensures view.pcs[i].Sorting? && view.pcs[i].file == th.file < |view.files| && (done <==> view.pcs[i].left == 0)
      ensures done ==> var k := view.files[th.file];
        k != [] && v[..] == Sorted(k) == Values(k, SortIx(k, 0, |k|)) && ShowsThreads(view)
      ensures !done ==> ShowsThreads(view.(pcs := view.pcs[i := Prog.Sorting(th.file, view.pcs[i].left - 1)]))
    {
      hide ShowsThreads, ShowsThread, Sorted, SortIx;
      Stands(view, i);
      var calls;
      ghost var positions, frames;
      done, v, calls, positions, frames := Advance(th, view, view.pcs[i]);
      ghost var k := view.files[th.file];
      SortedIsValues(k, 0, |k|);
      assert k[0..|k|] == k;
      if !done {
        SetThread(i, InSort(th.file, v, calls, positions, frames), view,
                  Prog.Sorting(th.file, view.pcs[i].left - 1));
      }
    }

    /** Lines 59-86 without the timestamps, from where coroutine i stands up to its next yield or its return. */
    method RunCode(i: nat) returns (finished: bool)
      requires Prog.Inv(view) && Prog.CanRun(view, i)
      requires nextFileIdx == view.next && ShowsThreads(view) && ShowsFiles(view)
      modifies `nextFileIdx, `threads, `held, `view, destinations
      ensures view == Prog.Step(old(view), i) && nextFileIdx == view.next && ShowsThreads(view) && ShowsFiles(view)
      ensures finished <==> view.pcs[i].Done?
    {
      hide Sorted, SortIx, Values, Yields, ShowsThreads, ShowsThread, ShowsFiles;
      hide Prog.SwitchesOk, Prog.Claim, Prog.Store;
      Stands(view, i);
      Prog.StoreKeeps(view, i);
      ghost var next, stored := Prog.Step(view, i), Prog.Store(view, i);
      var th := threads[i];
      if th.InSort? {
        var done, v := Proceed(i, th);
        if !done {
          Yielded(view, i);
          OtherFields(view, next, next.pcs);
          view := next;
          return false;
        }
        StoreSorted(i, th.file, v);
      } else {
        NothingStored(view, i);
      }
      OtherFields(view, stored, view.pcs);
      finished := ClaimNext(i, stored);
      view := next;
    }

    lemma NothingStored(p: Prog.Program, i: nat)
      requires Prog.CanRun(p, i) && Prog.Readable(p.files) && !p.pcs[i].Sorting?
      ensures Prog.Store(p, i) == p
    {
    }

    lemma Yielded(p: Prog.Program, i: nat)
      requires Prog.CanRun(p, i) && Prog.Readable(p.files) && p.pcs[i].Sorting? && p.pcs[i].left > 0 && ShowsFiles(p)
      ensures var q := Prog.Step(p, i);
        && q.next == p.next && !q.pcs[i].Done? && ShowsFiles(q)
        && q.pcs == p.pcs[i := Prog.Sorting(p.pcs[i].file, p.pcs[i].left - 1)]
    {
    }

    /** Lines 59-86: one turn of coroutine i. */
    method RunSegment(i: nat) returns (finished: bool)
      requires Valid() && Prog.CanRun(view, i)
      modifies this, destinations, contexts
      ensures view == Prog.Step(old(view), i) && Valid()
      ensures Time.Enabled(old(times), Time.Resume(i)) && times == Turn(clock, old(times), i)
      ensures finished <==> view.pcs[i].Done?
    {
      hide Prog.Inv, Prog.Step, ShowsThreads, ShowsFiles, ShowsTimes, Time.Inv, Nanos;
      Prog.StepInv(view, i);
      Timed(i);
      StartTurn(i);
      finished := RunCode(i);
      assert ShowsTimes(times);
      EndTurn(i);
    }

    lemma Timed(i: nat)
      requires Valid() && Prog.CanRun(view, i)
      ensures Time.Enabled(times, Time.Resume(i)) && Prog.Readable(view.files)
      ensures var t := Time.Apply(clock, times, Time.Resume(i));
        && Time.Inv(clock, t) && Time.Enabled(t, Time.Suspend) && t.running.value == i
        && Time.Inv(clock, Time.Apply(clock, t, Time.Suspend))
    {
      hide ShowsThreads, ShowsFiles, ShowsTimes, Prog.Step;
      Time.StepInv(clock, times, Time.Resume(i));
      Time.StepInv(clock, Time.Apply(clock, times, Time.Resume(i)), Time.Suspend);
    }
  }

  lemma NoneLeft(frames: seq<Frame>)
    requires forall i | 0 <= i < |frames| :: frames[i].len > 2
    ensures YieldsLeft(frames) == 0 <==> frames == []
  {
  }
}
