/**
 * Any number of threads that join one push. The worker that finishes it signals end_cond once, so at most one of the
 * threads that wait for it is woken, and nobody ever signals it again.
 */
module PoolJoiners {
  /**
   * The joiners of a push: those blocked on end_cond, those woken but not yet back, and those that have returned with
   * the result or without it. timed holds the ones that joined with a timeout.
   */
  datatype Joins = Joins(finished: bool, timed: set<nat>, blocked: set<nat>, woken: set<nat>, served: set<nat>,
    gaveUp: set<nat>)

  /** Finish names the blocked joiner that pthread_cond_signal picks, if there is one. */
  datatype Event = Join(j: nat, timed: bool) | Finish(j: nat) | Return(j: nat) | TimeOut(j: nat)

  const START := Joins(false, {}, {}, {}, {}, {})

  predicate Known(s: Joins, j: nat) { j in s.blocked || j in s.woken || j in s.served || j in s.gaveUp }

  predicate Enabled(s: Joins, e: Event) {
    match e
    case Join(j, _) => !Known(s, j)
    case Finish(j) => !s.finished && (s.blocked != {} ==> j in s.blocked)
    case Return(j) => j in s.woken
    case TimeOut(j) => j in s.timed && (j in s.blocked || j in s.woken)
  }

  function Apply(s: Joins, e: Event): Joins
    requires Enabled(s, e)
  {
    match e
    case Join(j, timed) =>
      // Lines 256-261 and 354-361.
      var s1 := if timed then s.(timed := s.timed + {j}) else s;
      if s.finished then s1.(served := s.served + {j}) else s1.(blocked := s.blocked + {j})
    case Finish(j) =>
      // Lines 315 and 322.
      if s.blocked == {} then s.(finished := true)
      else s.(finished := true, blocked := s.blocked - {j}, woken := s.woken + {j})
    case Return(j) => s.(woken := s.woken - {j}, served := s.served + {j})
    case TimeOut(j) =>
      s.(blocked := s.blocked - {j}, woken := s.woken - {j}, gaveUp := s.gaveUp + {j})
  }

  ghost predicate Legal(s: Joins, run: seq<Event>)
    decreases |run|
  {
    run == [] || (Enabled(s, run[0]) && Legal(Apply(s, run[0]), run[1..]))
  }

  ghost function End(s: Joins, run: seq<Event>): Joins
    requires Legal(s, run)
    decreases |run|
  {
    if run == [] then s else End(Apply(s, run[0]), run[1..])
  }

  /** Nobody is at two places, only timed joins give up, and before the push finishes nobody is woken or served. */
  ghost predicate Inv(s: Joins) {
    && s.blocked !! s.woken && s.blocked + s.woken !! s.served && s.blocked + s.woken + s.served !! s.gaveUp
    && s.gaveUp <= s.timed && (!s.finished ==> s.woken == {} && s.served == {})
  }

  lemma {:induction false} RunInv(s: Joins, run: seq<Event>)
    requires Inv(s) && Legal(s, run)
    ensures Inv(End(s, run))
    decreases |run|
  {
    if run != [] { RunInv(Apply(s, run[0]), run[1..]); }
  }

  /**
   * Once the push has finished, a joiner that waits without a timeout stays where it is, or returns if it was woken.
   */
  lemma {:induction false} AfterFinish(s: Joins, run: seq<Event>, j: nat)
    requires Inv(s) && Legal(s, run) && s.finished && j !in s.timed
    ensures var t := End(s, run);
      && t.finished && (j in s.blocked ==> j in t.blocked && j !in t.timed)
      && (j in s.woken + s.served ==> j in t.woken + t.served && j !in t.timed)
    decreases |run|
  {
    if run != [] && Known(s, j) { AfterFinish(Apply(s, run[0]), run[1..], j); }
    else if run != [] { StaysFinished(s, run); }
  }

  lemma {:induction false} StaysFinished(s: Joins, run: seq<Event>)
    requires Legal(s, run) && s.finished
    ensures End(s, run).finished
    decreases |run|
  {
    if run != [] { StaysFinished(Apply(s, run[0]), run[1..]); }
  }

  /**
   * Of the threads that wait without a timeout when the push finishes, exactly the one that is signalled ever returns,
   * and may do so at any time; the others wait for ever.
   */
  lemma OneIsServed(before: seq<Event>, w: nat, after: seq<Event>, j: nat)
    requires Legal(START, before) && Enabled(End(START, before), Finish(w))
    requires Legal(Apply(End(START, before), Finish(w)), after)
    requires j in End(START, before).blocked && j !in End(START, before).timed
    ensures var t := End(Apply(End(START, before), Finish(w)), after);
      && (j == w <==> j in t.served || Enabled(t, Return(j)))
      && (j != w <==> j in t.blocked)
  {
    RunInv(START, before);
    var s := Apply(End(START, before), Finish(w));
    AfterFinish(s, after, j);
    RunInv(s, after);
  }

  /**
   * So everybody who waits without a timeout is served, whoever is signalled, exactly if nobody else waits beside such
   * a joiner.
   */
  lemma AllAreServed(before: seq<Event>)
    requires Legal(START, before) && !End(START, before).finished
    ensures var s := End(START, before);
      (forall w | Enabled(s, Finish(w)) :: Apply(s, Finish(w)).blocked <= s.timed) <==>
        forall i, j | i in s.blocked && j in s.blocked && j !in s.timed :: i == j
  {
    var s := End(START, before);
    if i, j :| i in s.blocked && j in s.blocked && j !in s.timed && i != j {
      assert Enabled(s, Finish(i)) && j in Apply(s, Finish(i)).blocked;
    }
  }
}
