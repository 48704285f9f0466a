/**
 * The coroutines of solution.c: each claims the next file, sorts it with a yield after every call of
 * get_sorted_numbers, stores the result, and claims again until no file is left.
 *
 * The steps below may be interleaved in any way; what a coroutine does between two yields is one step.
 */
module SortProgram {
  import opened MergeSort

  /** Not started; sorting a file, with so many yields to go before its result is stored; returned. */
  datatype Pc = Fresh | Sorting(file: nat, left: nat) | Done

  /** claims is history: which coroutine claimed file 0, 1, ... */
  datatype Program = Program(
    files: seq<seq<int>>, next: nat, dest: seq<seq<int>>, pcs: seq<Pc>, switches: seq<nat>, claims: seq<nat>)

  function Start(files: seq<seq<int>>, coros: nat): Program {
    Program(files, 0, seq(|files|, _ => []), seq(coros, _ => Fresh), seq(coros, _ => 0), [])
  }

  predicate CanRun(p: Program, i: nat) { i < |p.pcs| == |p.switches| && !p.pcs[i].Done? }

  predicate Readable(files: seq<seq<int>>) { forall f | 0 <= f < |files| :: files[f] != [] }

  /** Lines 71-72. */
  function Store(p: Program, i: nat): Program
    requires CanRun(p, i) && Readable(p.files)
  {
    if p.pcs[i].Sorting? && p.pcs[i].file < |p.dest| == |p.files| then
      p.(dest := p.dest[p.pcs[i].file := Sorted(p.files[p.pcs[i].file])])
    else p
  }

  /** Lines 63-70 up to the first yield, or the return at line 86. */
  function Claim(p: Program, i: nat): Program
    requires CanRun(p, i) && Readable(p.files)
  {
    if p.next < |p.files| then
      p.(next := p.next + 1, claims := p.claims + [i],
         pcs := p.pcs[i := Sorting(p.next, Yields(|p.files[p.next]|) - 1)],
         switches := p.switches[i := p.switches[i] + 1])
    else p.(pcs := p.pcs[i := Done])
  }

  /** Coroutine i runs up to its next yield, or to its end. */
  function Step(p: Program, i: nat): (q: Program)
    requires CanRun(p, i) && Readable(p.files)
    ensures q.files == p.files && |q.pcs| == |p.pcs| && |q.switches| == |p.switches|
  {
    if p.pcs[i].Sorting? && p.pcs[i].left > 0 then
      p.(pcs := p.pcs[i := Sorting(p.pcs[i].file, p.pcs[i].left - 1)], switches := p.switches[i := p.switches[i] + 1])
    else
      Claim(Store(p, i), i)
  }

  // ---------------------------------------------------------------- invariant

  function Left(pc: Pc): nat { if pc.Sorting? then pc.left else 0 }

  /** The yields of all the files a coroutine has claimed. */
  function Claimed(files: seq<seq<int>>, claims: seq<nat>, i: nat): nat
    requires |claims| <= |files| && Readable(files)
  {
    if claims == [] then 0 else
      var n := |claims| - 1;
      Claimed(files, claims[..n], i) + if claims[n] == i then Yields(|files[n]|) else 0
  }

  ghost predicate FilesOk(p: Program) {
    && Readable(p.files) && |p.dest| == |p.files| && |p.claims| == p.next <= |p.files| && |p.switches| == |p.pcs|
    && (forall f | 0 <= f < p.next :: p.claims[f] < |p.pcs|)
    && forall f | 0 <= f < p.next ::
         (p.pcs[p.claims[f]].Sorting? && p.pcs[p.claims[f]].file == f) || p.dest[f] == Sorted(p.files[f])
  }

  ghost predicate CorosOk(p: Program) {
    && (forall i | 0 <= i < |p.pcs| && p.pcs[i].Sorting? ::
          p.pcs[i].file < p.next == |p.claims| && p.claims[p.pcs[i].file] == i)
    && (forall i | 0 <= i < |p.pcs| && p.pcs[i].Done? :: p.next == |p.files|)
  }

  /** A coroutine has yielded exactly as often as its claims ask, but for what is left of the current one. */
  ghost predicate SwitchesOk(p: Program)
    requires |p.claims| <= |p.files| && Readable(p.files) && |p.switches| == |p.pcs|
  {
    forall i | 0 <= i < |p.pcs| :: p.switches[i] + Left(p.pcs[i]) == Claimed(p.files, p.claims, i)
  }

  ghost predicate Inv(p: Program) { FilesOk(p) && CorosOk(p) && SwitchesOk(p) }

  lemma StartInv(files: seq<seq<int>>, coros: nat)
    requires Readable(files)
    ensures Inv(Start(files, coros))
  {
  }

  lemma StoreInv(p: Program, i: nat)
    requires Inv(p) && CanRun(p, i) && Left(p.pcs[i]) == 0
    ensures Inv(Store(p, i))
    ensures p.pcs[i].Sorting? ==> Store(p, i).dest[p.pcs[i].file] == Sorted(p.files[p.pcs[i].file])
  {
    hide Sorted;
  }

  lemma ClaimSwitches(p: Program, i: nat)
    requires Inv(p) && CanRun(p, i) && Left(p.pcs[i]) == 0 && p.next < |p.files|
    ensures SwitchesOk(Claim(p, i))
  {
    hide Sorted, Yields;
    var q := Claim(p, i);
    assert q.claims[..|p.claims|] == p.claims;
  }

  lemma ClaimInv(p: Program, i: nat)
    requires Inv(p) && CanRun(p, i) && Left(p.pcs[i]) == 0
    requires p.pcs[i].Sorting? ==> p.dest[p.pcs[i].file] == Sorted(p.files[p.pcs[i].file])
    ensures Inv(Claim(p, i))
  {
    hide Sorted, Yields, Claimed;
    if p.next < |p.files| { ClaimSwitches(p, i); }
    var q := Claim(p, i);
    forall f | 0 <= f < q.next
      ensures (q.pcs[q.claims[f]].Sorting? && q.pcs[q.claims[f]].file == f) || q.dest[f] == Sorted(q.files[f])
    {
      if f < p.next { assert q.claims[f] == p.claims[f]; }
    }
  }

  lemma StepInv(p: Program, i: nat)
    requires Inv(p) && CanRun(p, i)
    ensures Inv(Step(p, i))
  {
    hide Sorted, Yields, Claimed, Claim, Store;
    if Left(p.pcs[i]) == 0 {
      StoreInv(p, i);
      StoreKeeps(p, i);
      ClaimInv(Store(p, i), i);
    }
  }

  /** A step ends in a yield, which is counted, or in the return; and is nobody else's. */
  lemma StepCounts(p: Program, i: nat)
    requires CanRun(p, i) && Readable(p.files)
    ensures var q := Step(p, i);
      && q.switches[i] + (if q.pcs[i].Done? then 1 else 0) == p.switches[i] + 1
      && forall j | 0 <= j < |p.pcs| && j != i :: q.switches[j] == p.switches[j] && q.pcs[j] == p.pcs[j]
  {
    hide Sorted, Yields;
  }

  lemma StoreKeeps(p: Program, i: nat)
    requires CanRun(p, i) && Readable(p.files)
    ensures var q := Store(p, i);
      && q.files == p.files && q.pcs == p.pcs && q.switches == p.switches && q.next == p.next && q.claims == p.claims
      && |q.dest| == |p.dest|
  {
  }

  // ---------------------------------------------------------------- runs

  /** A run: which coroutine goes next, each time. */
  ghost predicate Legal(p: Program, run: seq<nat>)
    requires Readable(p.files)
    decreases |run|
  {
    run == [] || (CanRun(p, run[0]) && Legal(Step(p, run[0]), run[1..]))
  }

  ghost function End(p: Program, run: seq<nat>): (q: Program)
    requires Readable(p.files) && Legal(p, run)
    ensures q.files == p.files && |q.pcs| == |p.pcs|
    decreases |run|
  {
    if run == [] then p else End(Step(p, run[0]), run[1..])
  }

  ghost predicate AllDone(p: Program) { forall i | 0 <= i < |p.pcs| :: p.pcs[i].Done? }

  /** Yields of the files from f on. */
  function Ahead(files: seq<seq<int>>, f: nat): nat
    requires f <= |files| && Readable(files)
    decreases |files| - f
  {
    if f == |files| then 0 else Yields(|files[f]|) + Ahead(files, f + 1)
  }

  function LeftOf(pcs: seq<Pc>): nat { if pcs == [] then 0 else Left(pcs[0]) + LeftOf(pcs[1..]) }

  function Undone(pcs: seq<Pc>): nat { if pcs == [] then 0 else (if pcs[0].Done? then 0 else 1) + Undone(pcs[1..]) }

  /** How many steps are left. */
  function Work(p: Program): nat
    requires p.next <= |p.files| && Readable(p.files)
  {
    Ahead(p.files, p.next) + LeftOf(p.pcs) + Undone(p.pcs)
  }

  lemma {:induction false} PcUpdate(pcs: seq<Pc>, i: nat, pc: Pc)
    requires i < |pcs|
    ensures LeftOf(pcs[i := pc]) == LeftOf(pcs) - Left(pcs[i]) + Left(pc)
    ensures Undone(pcs[i := pc]) == Undone(pcs) - (if pcs[i].Done? then 0 else 1) + (if pc.Done? then 0 else 1)
  {
    if i == 0 {
      assert pcs[0 := pc][1..] == pcs[1..];
    } else {
      assert pcs[i := pc][1..] == pcs[1..][i - 1 := pc];
      PcUpdate(pcs[1..], i - 1, pc);
    }
  }

  /** Every step, whoever takes it, uses up exactly one unit of work. */
  lemma StepWorks(p: Program, i: nat)
    requires Inv(p) && CanRun(p, i)
    ensures Step(p, i).next <= |p.files| && Work(Step(p, i)) == Work(p) - 1
  {
    hide Sorted, Yields, Claimed, LeftOf, Undone;
    PcUpdate(p.pcs, i, Step(p, i).pcs[i]);
  }

  /** No interleaving runs longer than the work there is, and none can end before all coroutines have returned. */
  lemma {:induction false} RunLength(p: Program, run: seq<nat>)
    requires Inv(p) && Legal(p, run)
    ensures Inv(End(p, run)) && |run| + Work(End(p, run)) == Work(p)
    decreases |run|
  {
    assert Readable(p.files);
    hide Inv, Step, Work;
    if run != [] {
      StepInv(p, run[0]);
      StepWorks(p, run[0]);
      RunLength(Step(p, run[0]), run[1..]);
    }
  }

  function Total(s: seq<nat>): nat { if s == [] then 0 else s[0] + Total(s[1..]) }

  /** Yields of the first n files. */
  function Before(files: seq<seq<int>>, n: nat): nat
    requires n <= |files| && Readable(files)
  {
    if n == 0 then 0 else Before(files, n - 1) + Yields(|files[n - 1]|)
  }

  function ByCoro(files: seq<seq<int>>, claims: seq<nat>, coros: nat): (r: seq<nat>)
    requires |claims| <= |files| && Readable(files)
    ensures |r| == coros && forall i | 0 <= i < coros :: r[i] == Claimed(files, claims, i)
  {
    seq(coros, i requires 0 <= i < coros => Claimed(files, claims, i))
  }

  lemma {:induction false} TotalBump(s: seq<nat>, k: nat, d: nat)
    requires k < |s|
    ensures Total(s[k := s[k] + d]) == Total(s) + d
  {
    if k == 0 {
      assert s[0 := s[0] + d][1..] == s[1..];
    } else {
      assert s[k := s[k] + d][1..] == s[1..][k - 1 := s[1..][k - 1] + d];
      TotalBump(s[1..], k - 1, d);
    }
  }

  lemma {:induction false} TotalZero(s: seq<nat>)
    requires forall i | 0 <= i < |s| :: s[i] == 0
    ensures Total(s) == 0
  {
    if s != [] { TotalZero(s[1..]); }
  }

  /** However the files are shared out, together the coroutines are charged for every claimed file once. */
  lemma {:induction false} SharedOut(files: seq<seq<int>>, claims: seq<nat>, coros: nat)
    requires |claims| <= |files| && Readable(files) && forall f | 0 <= f < |claims| :: claims[f] < coros
    ensures Total(ByCoro(files, claims, coros)) == Before(files, |claims|)
    decreases |claims|
  {
    var all := ByCoro(files, claims, coros);
    if claims == [] {
      TotalZero(all);
    } else {
      var n := |claims| - 1;
      var less := ByCoro(files, claims[..n], coros);
      SharedOut(files, claims[..n], coros);
      hide Yields;
      TotalBump(less, claims[n], Yields(|files[n]|));
      assert all == less[claims[n] := less[claims[n]] + Yields(|files[n]|)];
    }
  }

  /** When a coroutine has returned, it has yielded once for every call of the sort on the files it claimed. */
  lemma SwitchesAtEnd(p: Program)
    requires Inv(p) && AllDone(p)
    ensures p.switches == ByCoro(p.files, p.claims, |p.pcs|)
    ensures Total(p.switches) == Before(p.files, p.next)
  {
    hide Sorted, Yields, Claimed, Before, Total;
    SharedOut(p.files, p.claims, |p.pcs|);
    forall i | 0 <= i < |p.pcs| ensures p.switches[i] == Claimed(p.files, p.claims, i) {
      assert p.pcs[i].Done?;
    }
  }

  /**
   * For every number of coroutines but zero, and every interleaving: when all have returned, every file has been
   * claimed by exactly one of them and sorted into its place, and the yields add up to those of all the sorts.
   */
  lemma EndToEnd(files: seq<seq<int>>, coros: nat, run: seq<nat>)
    requires Readable(files) && coros > 0 && Legal(Start(files, coros), run)
    ensures var p := End(Start(files, coros), run);
      && |run| <= Work(Start(files, coros))
      && ((forall i :: !CanRun(p, i)) <==> AllDone(p))
      && (AllDone(p) ==>
            && p.next == |files| == |p.claims| == |p.dest| && (forall f | 0 <= f < |files| :: p.claims[f] < coros)
            && (forall f | 0 <= f < |files| :: p.dest[f] == Sorted(files[f]))
            && Total(p.switches) == Before(files, |files|))
  {
    hide Sorted, Yields, Claimed, Before, Total, Step, Work, LeftOf, Undone;
    StartInv(files, coros);
    RunLength(Start(files, coros), run);
    var p := End(Start(files, coros), run);
    if forall i :: !CanRun(p, i) {
      forall i | 0 <= i < |p.pcs| ensures p.pcs[i].Done? { assert !CanRun(p, i); }
    }
    if AllDone(p) {
      assert p.pcs[0].Done?;
      SwitchesAtEnd(p);
      forall f | 0 <= f < |files| ensures p.dest[f] == Sorted(files[f]) { assert p.pcs[p.claims[f]].Done?; }
    }
  }

  /** A claim is never taken back or given to another. */
  lemma {:induction false} ClaimsStay(p: Program, run: seq<nat>)
    requires Inv(p) && Legal(p, run)
    ensures p.claims <= End(p, run).claims
    decreases |run|
  {
    if run != [] {
      StepInv(p, run[0]);
      hide Inv;
      ClaimsStay(Step(p, run[0]), run[1..]);
    }
  }
}
