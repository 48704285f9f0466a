/**
 * The coroutine scheduler of libcoro.c as a machine: what the running context does up to the next
 * switch is one step. Coroutine bodies are arbitrary: the running one may yield, finish, or create others.
 */
module CoroModel {
  /** Who runs: the scheduler's own code, the scheduler back inside coro_sched_wait, or a coroutine. */
  datatype Control = Idle | InWait | At(id: nat) | NoReturn

  /** switches is the switch_count; born is history: the rounds begun when the coroutine was created. */
  datatype Coro = Coro(switches: int, born: int)

  /**
   * list is coro_list from its head; coros holds every coroutine, by creation number. rounds counts the
   * switches of line 141, and returned is history.
   */
  datatype Coros = Coros(
    list: seq<nat>, finished: set<nat>, coros: seq<Coro>, schedSwitches: int, waiting: bool, control: Control,
    rounds: int, returned: seq<nat>)

  datatype Action = New | Wait | Resume | Yield | Finish
  datatype Reply = Nothing | Returned(id: nat) | Null

  const EMPTY := Coros([], {}, [], 0, false, Idle, 0, [])

  function FirstFinished(list: seq<nat>, finished: set<nat>): (k: nat)
    ensures k <= |list| && (k < |list| ==> list[k] in finished)
    ensures forall j | 0 <= j < k :: list[j] !in finished
  {
    if list == [] || list[0] in finished then 0 else
      var k := 1 + FirstFinished(list[1..], finished);
      assert forall j | 1 <= j < k :: list[j] == list[1..][j - 1];
      k
  }

  function IndexOf(list: seq<nat>, id: nat): (k: nat)
    ensures k <= |list| && (k < |list| ==> list[k] == id)
    ensures forall j | 0 <= j < k :: list[j] != id
  {
    if list == [] || list[0] == id then 0 else
      var k := 1 + IndexOf(list[1..], id);
      assert forall j | 1 <= j < k :: list[j] == list[1..][j - 1];
      k
  }

  /** One turn of the loop of coro_sched_wait: return a finished coroutine, or start a round. */
  function Scan(s: Coros): (Coros, Reply) {
    if s.list == [] then (s.(control := Idle), Null) else
    var k := FirstFinished(s.list, s.finished);
    if k < |s.list| then
      (s.(list := s.list[..k] + s.list[k + 1..], control := Idle, returned := s.returned + [s.list[k]]),
       Returned(s.list[k]))
    else
      (s.(waiting := true, schedSwitches := s.schedSwitches + 1, rounds := s.rounds + 1, control := At(s.list[0])),
       Nothing)
  }

  predicate Enabled(s: Coros, a: Action) {
    match a
    case New => s.control.Idle? || s.control.At?
    case Wait => s.control.Idle?
    case Resume => s.control.InWait?
    case Yield => s.control.Idle? || (s.control.At? && s.control.id < |s.coros|)
    case Finish => s.control.At?
  }

  function Apply(s: Coros, a: Action): (Coros, Reply)
    requires Enabled(s, a)
  {
    match a
    case New =>
      (s.(list := [|s.coros|] + s.list, coros := s.coros + [Coro(0, s.rounds)]), Nothing)
    case Wait => Scan(s)
    case Resume => Scan(s.(waiting := false))
    case Yield =>
      if s.control.Idle? then (s.(schedSwitches := s.schedSwitches + 1), Nothing) else
      var i := s.control.id;
      var k := IndexOf(s.list, i);
      (s.(coros := s.coros[i := s.coros[i].(switches := s.coros[i].switches + 1)],
          control := if k + 1 < |s.list| then At(s.list[k + 1]) else InWait), Nothing)
    case Finish =>
      (s.(finished := s.finished + {s.control.id}, control := if s.waiting then InWait else NoReturn), Nothing)
  }

  // ---------------------------------------------------------------- invariant

  /** The finished coroutines that stand, or stood, before i in the list. */
  ghost function Ahead(finished: set<nat>, i: nat): set<nat> { set x | x in finished && i < x }

  /** In the middle of a round: the coroutines that have not had their turn yet. */
  function Due(control: Control, i: nat): nat { if control.At? && i <= control.id then 1 else 0 }

  ghost predicate ListOk(s: Coros) {
    && (forall i, j | 0 <= i < j < |s.list| :: s.list[i] > s.list[j])
    && (forall i | i in s.list :: i < |s.coros|)
    && (forall x | x in s.finished :: x < |s.coros|)
    && (forall i: nat | i < |s.coros| && i !in s.finished :: i in s.list)
  }

  /** Only the scheduler, about to collect it, ever sees a finished coroutine in the list. */
  ghost predicate ControlOk(s: Coros) {
    && (s.waiting <==> s.control.At? || s.control.InWait?)
    && !s.control.NoReturn? && (s.control.InWait? ==> s.list != [])
    && (s.control.At? ==> s.control.id in s.list && s.control.id !in s.finished)
    && (forall i | i in s.list && i in s.finished :: s.control.InWait?)
    && (forall i, j | i in s.list && j in s.list && i in s.finished && j in s.finished :: i == j)
  }

  ghost predicate ReturnedOk(s: Coros) {
    && (forall i, j | 0 <= i < j < |s.returned| :: s.returned[i] != s.returned[j])
    && (forall x | x in s.returned :: x in s.finished && x !in s.list)
    && (forall i: nat | i < |s.coros| :: i in s.list || i in s.returned)
  }

  /** Every round gives each coroutine one turn, until one before it finishes and ends the round. */
  ghost predicate Fair(s: Coros) {
    forall i: nat | i < |s.coros| && i !in s.finished ::
      s.coros[i].switches + |Ahead(s.finished, i)| + Due(s.control, i) + s.coros[i].born == s.rounds
  }

  ghost predicate BornOk(s: Coros) {
    0 <= s.rounds && forall i | 0 <= i < |s.coros| :: 0 <= s.coros[i].born <= s.rounds
  }

  ghost predicate Inv(s: Coros) { ListOk(s) && ControlOk(s) && ReturnedOk(s) && Fair(s) && BornOk(s) }

  lemma ScanInv(s: Coros)
    requires ListOk(s) && ReturnedOk(s) && Fair(s) && BornOk(s) && !s.control.At? && !s.waiting
    requires forall i, j | i in s.list && j in s.list && i in s.finished && j in s.finished :: i == j
    ensures Inv(Scan(s).0)
  {
    var k := FirstFinished(s.list, s.finished);
    if k < |s.list| { CollectInv(s, k); } else { StartInv(s); }
  }

  lemma WithoutMember(list: seq<nat>, k: nat, x: nat)
    requires k < |list| && forall i, j | 0 <= i < j < |list| :: list[i] > list[j]
    ensures x in list[..k] + list[k + 1..] <==> x in list && x != list[k]
  {
    var out := list[..k] + list[k + 1..];
    if x in list && x != list[k] {
      var j :| 0 <= j < |list| && list[j] == x;
      assert out[if j < k then j else j - 1] == x;
    }
  }

  lemma CollectInv(s: Coros, k: nat)
    requires ListOk(s) && ReturnedOk(s) && Fair(s) && BornOk(s) && !s.control.At? && !s.waiting
    requires forall i, j | i in s.list && j in s.list && i in s.finished && j in s.finished :: i == j
    requires k == FirstFinished(s.list, s.finished) < |s.list|
    ensures Inv(Scan(s).0)
  {
    var t := Scan(s).0;
    forall x ensures x in t.list <==> x in s.list && x != s.list[k] { WithoutMember(s.list, k, x); }
    CollectList(s, t, k);
    CollectReturned(s, t, k);
    hide ListOk, ReturnedOk, FirstFinished;
  }

  lemma CollectList(s: Coros, t: Coros, k: nat)
    requires ListOk(s) && k < |s.list| && s.list[k] in s.finished && t.list == s.list[..k] + s.list[k + 1..]
    requires t.finished == s.finished && t.coros == s.coros
    requires forall x :: x in t.list <==> x in s.list && x != s.list[k]
    ensures ListOk(t)
  {
  }

  lemma CollectReturned(s: Coros, t: Coros, k: nat)
    requires ReturnedOk(s) && k < |s.list| && s.list[k] in s.finished && t.returned == s.returned + [s.list[k]]
    requires t.finished == s.finished && t.coros == s.coros
    requires forall x :: x in t.list <==> x in s.list && x != s.list[k]
    ensures ReturnedOk(t)
  {
    assert s.list[k] in s.list;
    assert forall x :: x in t.returned <==> x in s.returned || x == s.list[k];
  }

  lemma StartInv(s: Coros)
    requires ListOk(s) && ReturnedOk(s) && Fair(s) && BornOk(s) && !s.control.At? && !s.waiting
    requires FirstFinished(s.list, s.finished) == |s.list|
    ensures Inv(Scan(s).0)
  {
    var t := Scan(s).0;
    if s.list != [] {
      assert s.list[0] in s.list;
      forall i: nat | i < |t.coros| && i !in t.finished
        ensures t.coros[i].switches + |Ahead(t.finished, i)| + Due(t.control, i) + t.coros[i].born == t.rounds
      {
        assert i in s.list;
        var j :| 0 <= j < |s.list| && s.list[j] == i;
      }
    }
  }

  lemma NewInv(s: Coros)
    requires Inv(s) && Enabled(s, New)
    ensures Inv(Apply(s, New).0)
  {
    NewFair(s);
    hide Fair;
    var t, n := Apply(s, New).0, |s.coros|;
    assert n !in s.finished && forall x :: x in t.list <==> x == n || x in s.list;
    assert forall j | 0 < j < |t.list| :: t.list[j] == s.list[j - 1] && s.list[j - 1] in s.list;
  }

  lemma NewFair(s: Coros)
    requires Inv(s) && Enabled(s, New)
    ensures Fair(Apply(s, New).0)
  {
    hide ReturnedOk;
    var t, n := Apply(s, New).0, |s.coros|;
    forall i: nat | i < |t.coros| && i !in t.finished
      ensures t.coros[i].switches + |Ahead(t.finished, i)| + Due(t.control, i) + t.coros[i].born == t.rounds
    {
      if i == n { assert Ahead(t.finished, n) == {}; }
    }
  }

  lemma YieldInv(s: Coros)
    requires Inv(s) && Enabled(s, Yield)
    ensures Inv(Apply(s, Yield).0)
  {
    if s.control.At? {
      var t := Apply(s, Yield).0;
      var k := IndexOf(s.list, s.control.id);
      forall i: nat | i < |t.coros| && i !in t.finished
        ensures t.coros[i].switches + |Ahead(t.finished, i)| + Due(t.control, i) + t.coros[i].born == t.rounds
      {
        var j :| 0 <= j < |s.list| && s.list[j] == i;
        assert (j <= k ==> i >= s.list[k]) && (k <= j ==> i <= s.list[k]);
      }
    }
  }

  lemma FinishInv(s: Coros)
    requires Inv(s) && Enabled(s, Finish)
    ensures Inv(Apply(s, Finish).0)
  {
    FinishFair(s);
    hide Fair;
  }

  lemma FinishFair(s: Coros)
    requires Inv(s) && Enabled(s, Finish)
    ensures Fair(Apply(s, Finish).0)
  {
    hide ReturnedOk, Ahead;
    var t, c := Apply(s, Finish).0, s.control.id;
    forall i: nat | i < |t.coros| && i !in t.finished
      ensures t.coros[i].switches + |Ahead(t.finished, i)| + Due(t.control, i) + t.coros[i].born == t.rounds
    {
      AheadMore(s.finished, c, i);
    }
  }

  lemma AheadMore(finished: set<nat>, c: nat, i: nat)
    requires c !in finished
    ensures |Ahead(finished + {c}, i)| == |Ahead(finished, i)| + if i < c then 1 else 0
  {
    assert Ahead(finished + {c}, i) == Ahead(finished, i) + if i < c then {c} else {};
  }

  lemma StepInv(s: Coros, a: Action)
    requires Inv(s) && Enabled(s, a)
    ensures Inv(Apply(s, a).0)
  {
    match a
    case New => NewInv(s);
    case Wait => ScanInv(s);
    case Resume => ScanInv(s.(waiting := false));
    case Yield => YieldInv(s);
    case Finish => FinishInv(s);
  }

  // ---------------------------------------------------------------- runs

  ghost predicate Legal(s: Coros, acts: seq<Action>)
    decreases |acts|
  {
    acts == [] || (Enabled(s, acts[0]) && Legal(Apply(s, acts[0]).0, acts[1..]))
  }

  ghost function End(s: Coros, acts: seq<Action>): Coros
    requires Legal(s, acts)
    decreases |acts|
  {
    if acts == [] then s else End(Apply(s, acts[0]).0, acts[1..])
  }

  ghost function Replies(s: Coros, acts: seq<Action>): seq<Reply>
    requires Legal(s, acts)
    decreases |acts|
  {
    if acts == [] then [] else [Apply(s, acts[0]).1] + Replies(Apply(s, acts[0]).0, acts[1..])
  }

  lemma {:induction false} RunInv(s: Coros, acts: seq<Action>)
    requires Inv(s) && Legal(s, acts)
    ensures Inv(End(s, acts))
    decreases |acts|
  {
    hide Inv, Apply, Enabled;
    if acts != [] {
      StepInv(s, acts[0]);
      RunInv(Apply(s, acts[0]).0, acts[1..]);
    }
  }

  ghost predicate Reachable(s: Coros) {
    exists acts :: Legal(EMPTY, acts) && s == End(EMPTY, acts)
  }

  lemma ReachableInv(s: Coros)
    requires Reachable(s)
    ensures Inv(s)
  {
    var acts :| Legal(EMPTY, acts) && s == End(EMPTY, acts);
    RunInv(EMPTY, acts);
  }

  /** The finished coroutines that stood between j and i. */
  ghost function Between(finished: set<nat>, j: nat, i: nat): set<nat> { set x | x in finished && j < x < i }

  /**
   * Exact fairness. For unfinished coroutines i before j, their switch counts differ by the number of
   * coroutines that stood between them and have finished, less the rounds i was created after j; and by
   * one more while a round has passed i but not yet j.
   */
  lemma ExactFairness(s: Coros, i: nat, j: nat)
    requires Reachable(s) && j < i < |s.coros| && i !in s.finished && j !in s.finished
    ensures s.coros[i].switches - s.coros[j].switches
      == |Between(s.finished, j, i)| - (s.coros[i].born - s.coros[j].born)
        + if s.control.At? && j <= s.control.id < i then 1 else 0
  {
    ReachableInv(s);
    FairnessOf(s, i, j);
  }

  lemma FairnessOf(s: Coros, i: nat, j: nat)
    requires Inv(s) && j < i < |s.coros| && i !in s.finished && j !in s.finished
    ensures s.coros[i].switches - s.coros[j].switches
      == |Between(s.finished, j, i)| - (s.coros[i].born - s.coros[j].born)
        + if s.control.At? && j <= s.control.id < i then 1 else 0
  {
    var b, f := Between(s.finished, j, i), Ahead(s.finished, i);
    assert Ahead(s.finished, j) == b + f && b !! f;
  }

  lemma {:induction false} BornKept(s: Coros, acts: seq<Action>)
    requires Legal(s, acts)
    ensures |s.coros| <= |End(s, acts).coros|
    ensures forall i | 0 <= i < |s.coros| :: End(s, acts).coros[i].born == s.coros[i].born
    decreases |acts|
  {
    if acts != [] { BornKept(Apply(s, acts[0]).0, acts[1..]); }
  }

  /**
   * The same for coroutines created before the first round, after any run: the counts differ by exactly the
   * finished coroutines that stood between them, and by one more in the middle of a round.
   */
  lemma FairFromTheStart(s: Coros, acts: seq<Action>, i: nat, j: nat)
    requires Reachable(s) && s.rounds == 0 && Legal(s, acts) && j < i < |s.coros|
    requires i !in End(s, acts).finished && j !in End(s, acts).finished
    ensures |s.coros| <= |End(s, acts).coros|
    ensures var t := End(s, acts);
      t.coros[i].switches - t.coros[j].switches
        == |Between(t.finished, j, i)| + if t.control.At? && j <= t.control.id < i then 1 else 0
  {
    ReachableInv(s);
    RunInv(s, acts);
    BornKept(s, acts);
    FairnessOf(End(s, acts), i, j);
  }

  /** A segment in which coroutine i, or the scheduler, gives control away. */
  function Leaves(s: Coros, a: Action, i: nat): nat { if a == Yield && s.control == At(i) then 1 else 0 }

  function SchedLeaves(s: Coros, a: Action): nat
    requires Enabled(s, a)
  {
    if !s.control.At? && (a == Yield || Apply(s, a).0.control.At?) then 1 else 0
  }

  ghost function LeavesIn(s: Coros, acts: seq<Action>, i: nat): nat
    requires Legal(s, acts)
    decreases |acts|
  {
    if acts == [] then 0 else Leaves(s, acts[0], i) + LeavesIn(Apply(s, acts[0]).0, acts[1..], i)
  }

  ghost function SchedLeavesIn(s: Coros, acts: seq<Action>): nat
    requires Legal(s, acts)
    decreases |acts|
  {
    if acts == [] then 0 else SchedLeaves(s, acts[0]) + SchedLeavesIn(Apply(s, acts[0]).0, acts[1..])
  }

  /** A coroutine that does not exist yet has not switched. */
  function SwitchCount(s: Coros, i: nat): int { if i < |s.coros| then s.coros[i].switches else 0 }

  lemma CountsSwitch(s: Coros, a: Action, i: nat)
    requires Enabled(s, a)
    ensures var t := Apply(s, a).0;
      && SwitchCount(t, i) == SwitchCount(s, i) + Leaves(s, a, i)
      && t.schedSwitches == s.schedSwitches + SchedLeaves(s, a)
  {
    hide IndexOf, FirstFinished;
  }

  /** Over any run coro_switch_count grows by the switches away from a context, and by nothing else. */
  lemma {:induction false} CountsSwitches(s: Coros, acts: seq<Action>, i: nat)
    requires Legal(s, acts)
    ensures var t := End(s, acts);
      && SwitchCount(t, i) == SwitchCount(s, i) + LeavesIn(s, acts, i)
      && t.schedSwitches == s.schedSwitches + SchedLeavesIn(s, acts)
    decreases |acts|
  {
    hide Apply, Enabled, Leaves, SchedLeaves, SwitchCount;
    if acts != [] {
      CountsSwitch(s, acts[0], i);
      CountsSwitches(Apply(s, acts[0]).0, acts[1..], i);
    }
  }

  /**
   * Every switch goes to the scheduler or to an unfinished coroutine of the list; nobody is left without a place
   * to return.
   */
  lemma SwitchesAreSafe(s: Coros, a: Action)
    requires Reachable(s) && Enabled(s, a)
    ensures var t := Apply(s, a).0;
      && !t.control.NoReturn?
      && (t.control.At? ==> t.control.id in t.list && t.control.id !in t.finished)
      && |set x | x in t.list && x in t.finished| <= 1
  {
    ReachableInv(s);
    StepInv(s, a);
    var t := Apply(s, a).0;
    var late := set x | x in t.list && x in t.finished;
    if late != {} {
      var x :| x in late;
      assert late == {x};
    }
  }

  /**
   * coro_sched_wait returns only finished coroutines, each at most once; when it returns NULL it has returned them
   * all.
   */
  lemma WaitReturnsEachOnce(s: Coros, a: Action)
    requires Reachable(s) && Enabled(s, a)
    ensures Apply(s, a).1.Returned? ==>
      var id := Apply(s, a).1.id;
      id in s.finished && id !in s.returned && Apply(s, a).0.returned == s.returned + [id]
    ensures Apply(s, a).1.Null? ==>
      && |s.returned| == |s.coros|
      && (forall i: nat | i < |s.coros| :: i in s.finished && i in s.returned)
  {
    ReachableInv(s);
    if Apply(s, a).1.Null? { AllReturned(s); }
  }

  lemma AllReturned(s: Coros)
    requires Inv(s) && s.list == []
    ensures |s.returned| == |s.coros|
  {
    assert Elements(s.returned) == Below(|s.coros|);
    DistinctCount(s.returned);
  }

  ghost function Below(n: nat): (r: set<nat>)
    ensures |r| == n && forall i: nat :: i in r <==> i < n
  {
    if n == 0 then {} else Below(n - 1) + {n - 1}
  }

  ghost function Elements(s: seq<nat>): (r: set<nat>)
    ensures forall x :: x in r <==> x in s
  {
    if s == [] then {} else {s[0]} + Elements(s[1..])
  }

  lemma {:induction false} DistinctCount(s: seq<nat>)
    requires forall i, j | 0 <= i < j < |s| :: s[i] != s[j]
    ensures |Elements(s)| == |s|
  {
    if s != [] {
      DistinctCount(s[1..]);
      assert s[0] !in s[1..];
    }
  }

  // ---------------------------------------------------------------- finite bodies

  /** What a body does from here on: return, yield and go on, or create a coroutine and go on. */
  datatype Body = Return | YieldThen(rest: Body) | NewThen(child: Body, rest: Body)

  /** Its segments and those of the coroutines it creates, and theirs. */
  function Size(b: Body): nat {
    match b
    case Return => 1
    case YieldThen(rest) => 1 + Size(rest)
    case NewThen(child, rest) => 1 + Size(child) + Size(rest)
  }

  /** How often it yields itself. */
  function Yields(b: Body): nat {
    match b
    case Return => 0
    case YieldThen(rest) => 1 + Yields(rest)
    case NewThen(_, rest) => Yields(rest)
  }

  /** How often it and all coroutines that come from it yield. */
  function TreeYields(b: Body): nat {
    match b
    case Return => 0
    case YieldThen(rest) => 1 + TreeYields(rest)
    case NewThen(child, rest) => TreeYields(child) + TreeYields(rest)
  }

  /** How many coroutines come from it. */
  function Births(b: Body): nat {
    match b
    case Return => 0
    case YieldThen(rest) => Births(rest)
    case NewThen(child, rest) => 1 + Births(child) + Births(rest)
  }

  /** f summed over the bodies of the unfinished coroutines among the first n. */
  ghost function SumOver(finished: set<nat>, bodies: seq<Body>, n: nat, f: Body -> nat): nat
    requires n <= |bodies|
  {
    if n == 0 then 0 else SumOver(finished, bodies, n - 1, f) + if n - 1 in finished then 0 else f(bodies[n - 1])
  }

  lemma {:induction false} SumChanges(finished: set<nat>, bodies: seq<Body>, n: nat, f: Body -> nat, i: nat, b: Body)
    requires i < |bodies| && n <= |bodies| && i !in finished
    ensures SumOver(finished, bodies[i := b], n, f)
      == SumOver(finished, bodies, n, f) + if i < n then f(b) - f(bodies[i]) else 0
    ensures SumOver(finished + {i}, bodies, n, f) == SumOver(finished, bodies, n, f) - if i < n then f(bodies[i]) else 0
  {
    if n > 0 { SumChanges(finished, bodies, n - 1, f, i, b); }
  }

  lemma {:induction false} SumGrows(finished: set<nat>, bodies: seq<Body>, n: nat, f: Body -> nat, b: Body)
    requires n <= |bodies|
    ensures SumOver(finished, bodies + [b], n, f) == SumOver(finished, bodies, n, f)
  {
    if n > 0 { SumGrows(finished, bodies, n - 1, f, b); }
  }

  ghost function Sum(s: Coros, bodies: seq<Body>, f: Body -> nat): nat { SumOver(s.finished, bodies, |bodies|, f) }

  function TotalSwitches(coros: seq<Coro>): int {
    if coros == [] then 0 else TotalSwitches(coros[..|coros| - 1]) + coros[|coros| - 1].switches
  }

  lemma {:induction false} TotalBump(coros: seq<Coro>, i: nat)
    requires i < |coros|
    ensures TotalSwitches(coros[i := coros[i].(switches := coros[i].switches + 1)]) == TotalSwitches(coros) + 1
  {
    var n := |coros| - 1;
    var out := coros[i := coros[i].(switches := coros[i].switches + 1)];
    if i < n {
      TotalBump(coros[..n], i);
      assert out[..n] == coros[..n][i := out[i]];
    } else {
      assert out[..n] == coros[..n];
    }
  }

  /** The segment that runs next. */
  ghost function Turn(s: Coros, bodies: seq<Body>): Action {
    match s.control
    case Idle => Wait
    case InWait => Resume
    case NoReturn => Finish
    case At(i) =>
      if i >= |bodies| then Finish else
      match bodies[i]
      case Return => Finish
      case YieldThen(_) => Yield
      case NewThen(_, _) => New
  }

  /** What is left of the bodies after it. */
  ghost function Left(s: Coros, bodies: seq<Body>): seq<Body> {
    if !s.control.At? || s.control.id >= |bodies| then bodies else
    match bodies[s.control.id]
    case Return => bodies
    case YieldThen(rest) => bodies[s.control.id := rest]
    case NewThen(child, rest) => bodies[s.control.id := rest] + [child]
  }

  /** From s to t nothing that the bodies yield or create is lost. */
  ghost predicate Accounts(s: Coros, bodies: seq<Body>, t: Coros, left: seq<Body>) {
    && |bodies| == |s.coros| <= |left| == |t.coros|
    && |t.coros| + Sum(t, left, Births) == |s.coros| + Sum(s, bodies, Births)
    && TotalSwitches(t.coros) + Sum(t, left, TreeYields) == TotalSwitches(s.coros) + Sum(s, bodies, TreeYields)
    && forall j | 0 <= j < |s.coros| ::
         t.coros[j].switches + (if j in t.finished then 0 else Yields(left[j]))
           == s.coros[j].switches + if j in s.finished then 0 else Yields(bodies[j])
  }

  /** A turn in a coroutine: one segment less, and what it yields or creates is accounted for. */
  lemma CoroTurn(s: Coros, bodies: seq<Body>)
    requires Inv(s) && |bodies| == |s.coros| && s.control.At?
    ensures Enabled(s, Turn(s, bodies))
    ensures var (t, reply) := Apply(s, Turn(s, bodies));
      && reply == Nothing && Accounts(s, bodies, t, Left(s, bodies))
      && Sum(t, Left(s, bodies), Size) + 1 == Sum(s, bodies, Size)
  {
    AtUnfinished(s);
    hide Inv, Accounts, Apply;
    match bodies[s.control.id]
    case Return => ReturnTurn(s, bodies);
    case YieldThen(_) => YieldTurn(s, bodies);
    case NewThen(_, _) => NewTurn(s, bodies);
  }

  lemma AtUnfinished(s: Coros)
    requires Inv(s) && s.control.At?
    ensures s.control.id < |s.coros| && s.control.id !in s.finished && |s.coros| !in s.finished
  {
    hide Fair, ReturnedOk;
  }

  lemma ReturnTurn(s: Coros, bodies: seq<Body>)
    requires s.control.At? && s.control.id < |bodies| == |s.coros| && s.control.id !in s.finished
    requires bodies[s.control.id].Return?
    ensures var (t, reply) := Apply(s, Finish);
      reply == Nothing && Accounts(s, bodies, t, bodies) && Sum(t, bodies, Size) + 1 == Sum(s, bodies, Size)
  {
    hide SumOver, TotalSwitches;
    SumTurn(s.finished, bodies, s.control.id, Return);
  }

  lemma YieldTurn(s: Coros, bodies: seq<Body>)
    requires s.control.At? && s.control.id < |bodies| == |s.coros| && s.control.id !in s.finished
    requires bodies[s.control.id].YieldThen?
    ensures Enabled(s, Yield)
    ensures var ((t, reply), left) := (Apply(s, Yield), Left(s, bodies));
      reply == Nothing && Accounts(s, bodies, t, left) && Sum(t, left, Size) + 1 == Sum(s, bodies, Size)
  {
    hide SumOver, TotalSwitches, IndexOf;
    SumTurn(s.finished, bodies, s.control.id, bodies[s.control.id].rest);
    TotalBump(s.coros, s.control.id);
  }

  lemma NewTurn(s: Coros, bodies: seq<Body>)
    requires s.control.At? && s.control.id < |bodies| == |s.coros| && s.control.id !in s.finished
    requires bodies[s.control.id].NewThen? && |bodies| !in s.finished
    ensures var ((t, reply), left) := (Apply(s, New), Left(s, bodies));
      reply == Nothing && Accounts(s, bodies, t, left) && Sum(t, left, Size) + 1 == Sum(s, bodies, Size)
  {
    hide SumOver, TotalSwitches;
    var (child, rest) := (bodies[s.control.id].child, bodies[s.control.id].rest);
    SumTurn(s.finished, bodies, s.control.id, rest);
    SumNew(s.finished, bodies[s.control.id := rest], child);
    TotalNew(s.coros, Coro(0, s.rounds));
  }

  lemma SumTurn(finished: set<nat>, bodies: seq<Body>, i: nat, b: Body)
    requires i < |bodies| && i !in finished
    ensures forall f | f == Size || f == Births || f == TreeYields ::
      && SumOver(finished, bodies[i := b], |bodies|, f) == SumOver(finished, bodies, |bodies|, f) + f(b) - f(bodies[i])
      && SumOver(finished + {i}, bodies, |bodies|, f) == SumOver(finished, bodies, |bodies|, f) - f(bodies[i])
  {
    hide SumOver;
    SumChanges(finished, bodies, |bodies|, Size, i, b);
    SumChanges(finished, bodies, |bodies|, Births, i, b);
    SumChanges(finished, bodies, |bodies|, TreeYields, i, b);
  }

  lemma SumNew(finished: set<nat>, bodies: seq<Body>, b: Body)
    requires |bodies| !in finished
    ensures forall f | f == Size || f == Births || f == TreeYields ::
      SumOver(finished, bodies + [b], |bodies| + 1, f) == SumOver(finished, bodies, |bodies|, f) + f(b)
  {
    SumGrows(finished, bodies, |bodies|, Size, b);
    SumGrows(finished, bodies, |bodies|, Births, b);
    SumGrows(finished, bodies, |bodies|, TreeYields, b);
  }

  lemma TotalNew(coros: seq<Coro>, c: Coro)
    ensures TotalSwitches(coros + [c]) == TotalSwitches(coros) + c.switches
  {
    assert (coros + [c])[..|coros|] == coros;
  }

  /** A turn of the scheduler: it collects a coroutine, starts a round, or finds that none is left. */
  lemma SchedTurn(s: Coros, bodies: seq<Body>)
    requires Inv(s) && |bodies| == |s.coros| && !s.control.At?
    ensures Enabled(s, Turn(s, bodies)) && Left(s, bodies) == bodies
    ensures var (t, reply) := Apply(s, Turn(s, bodies));
      && t.coros == s.coros && t.finished == s.finished
      && (reply.Returned? ==> |t.list| < |s.list|)
      && (reply.Nothing? ==> t.list == s.list && t.control.At?)
      && (reply.Null? ==> t.list == [] && t.control.Idle? && forall i: nat | i < |s.coros| :: i in s.finished)
  {
    hide Fair, Ahead;
  }

  lemma TurnFits(s: Coros, bodies: seq<Body>)
    requires Inv(s) && |bodies| == |s.coros|
    ensures Enabled(s, Turn(s, bodies))
    ensures var ((t, reply), left) := (Apply(s, Turn(s, bodies)), Left(s, bodies));
      && Accounts(s, bodies, t, left)
      && (reply.Null? ==> t.list == [] && t.control.Idle? && forall i: nat | i < |s.coros| :: i in s.finished)
      && (reply.Null? ==> t.coros == s.coros && t.finished == s.finished)
      && (s.control.At? ==> Sum(t, left, Size) < Sum(s, bodies, Size))
      && (!s.control.At? ==> Sum(t, left, Size) == Sum(s, bodies, Size))
      && (!s.control.At? && !reply.Null? ==> |t.list| < |s.list| || (t.list == s.list && t.control.At?))
  {
    hide Inv, Apply, Sum, TotalSwitches;
    if s.control.At? {
      CoroTurn(s, bodies);
    } else {
      SchedTurn(s, bodies);
      SameSum(s, Apply(s, Turn(s, bodies)).0, bodies);
    }
  }

  lemma SameSum(s: Coros, t: Coros, bodies: seq<Body>)
    requires s.finished == t.finished
    ensures forall f :: Sum(s, bodies, f) == Sum(t, bodies, f)
  {
  }

  /**
   * Waiting again and again, when every unfinished coroutine i has the finite body bodies[i]: coro_sched_wait reaches
   * NULL with every coroutine that was created on the way, and each has yielded exactly as often as its body says.
   */
  ghost function RunOut(s: Coros, bodies: seq<Body>): (t: Coros)
    requires Inv(s) && |bodies| == |s.coros|
    ensures Inv(t) && t.control.Idle? && t.list == []
    ensures |t.coros| == |s.coros| + Sum(s, bodies, Births)
    ensures forall i | 0 <= i < |s.coros| ::
      t.coros[i].switches == s.coros[i].switches + if i in s.finished then 0 else Yields(bodies[i])
    ensures TotalSwitches(t.coros) == TotalSwitches(s.coros) + Sum(s, bodies, TreeYields)
    decreases Sum(s, bodies, Size), |s.list|, if s.control.At? then 0 else 1
  {
    hide Inv, Apply, Fair, Ahead, Left, Turn, Sum, TotalSwitches;
    TurnFits(s, bodies);
    StepInv(s, Turn(s, bodies));
    var (t, reply) := Apply(s, Turn(s, bodies));
    if reply.Null? then NothingLeft(s, bodies); t else RunOut(t, Left(s, bodies))
  }

  lemma NothingLeft(s: Coros, bodies: seq<Body>)
    requires forall i: nat | i < |bodies| :: i in s.finished
    ensures Sum(s, bodies, Births) == 0 && Sum(s, bodies, TreeYields) == 0
  {
    NoneUnfinished(s.finished, bodies, |bodies|, Births);
    NoneUnfinished(s.finished, bodies, |bodies|, TreeYields);
  }

  lemma {:induction false} NoneUnfinished(finished: set<nat>, bodies: seq<Body>, n: nat, f: Body -> nat)
    requires n <= |bodies| && forall i: nat | i < n :: i in finished
    ensures SumOver(finished, bodies, n, f) == 0
  {
    if n > 0 { NoneUnfinished(finished, bodies, n - 1, f); }
  }

  /** So every coroutine, those created on the way included, is returned exactly once in the whole run. */
  lemma FiniteBodiesReturn(s: Coros, bodies: seq<Body>)
    requires Reachable(s) && |bodies| == |s.coros|
    ensures Inv(s)
    ensures var t := RunOut(s, bodies);
      && |t.returned| == |t.coros| == |s.coros| + Sum(s, bodies, Births)
      && (forall i: nat | i < |t.coros| :: i in t.finished && i in t.returned)
      && (forall i, j | 0 <= i < j < |t.returned| :: t.returned[i] != t.returned[j])
  {
    ReachableInv(s);
    AllReturned(RunOut(s, bodies));
  }
}
