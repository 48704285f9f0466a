/**
 * The records of heap_help.c as a machine: alloc_trace_new is two critical sections, between which its
 * record belongs to the thread alone; alloc_free is one. Any threads may interleave them.
 */
module TrackerModel {
  const ALLOCATION_BATCH_SIZE := 1024

  /** A record in the live list. slot numbers the records in the order in which batches hand them out. */
  datatype Rec = Rec(slot: nat, mem: nat, size: nat, traceSize: nat)

  /** published and released are history: the addresses recorded, and those freed again. */
  datatype State = State(
    live: seq<Rec>, pool: seq<nat>, inFlight: set<nat>, drawn: nat,
    published: multiset<nat>, released: multiset<nat>)

  const EMPTY := State([], [], {}, 0, multiset{}, multiset{})

  datatype Action = Draw | Publish(slot: nat, mem: nat, size: nat, traceSize: nat) | Free(mem: nat)
  datatype Reply = Slot(slot: nat) | Done | BadMemory

  function FirstOf(live: seq<Rec>, mem: nat): (k: nat)
    ensures k <= |live| && (k < |live| ==> live[k].mem == mem)
    ensures forall j | 0 <= j < k :: live[j].mem != mem
  {
    if live == [] || live[0].mem == mem then 0 else
      var k := 1 + FirstOf(live[1..], mem);
      assert forall j | 1 <= j < k :: live[j] == live[1..][j - 1];
      k
  }

  predicate Enabled(s: State, a: Action) { a.Publish? ==> a.slot in s.inFlight }

  function Apply(s: State, a: Action): (State, Reply)
    requires Enabled(s, a)
  {
    match a
    case Draw =>
      if s.pool != [] then (s.(pool := s.pool[1..], inFlight := s.inFlight + {s.pool[0]}), Slot(s.pool[0]))
      else (s.(drawn := s.drawn + 1, inFlight := s.inFlight + {s.drawn}), Slot(s.drawn))
    case Publish(slot, mem, size, traceSize) =>
      (s.(live := [Rec(slot, mem, size, traceSize)] + s.live, inFlight := s.inFlight - {slot},
          published := s.published + multiset{mem}), Done)
    case Free(mem) =>
      var k := FirstOf(s.live, mem);
      if k == |s.live| then (s, BadMemory) else
      (s.(live := s.live[..k] + s.live[k + 1..], pool := [s.live[k].slot] + s.pool,
          released := s.released + multiset{mem}), Done)
  }

  // ---------------------------------------------------------------- conservation

  function Slots(live: seq<Rec>): (r: seq<nat>)
    ensures |r| == |live| && forall i | 0 <= i < |live| :: r[i] == live[i].slot
  {
    seq(|live|, i requires 0 <= i < |live| => live[i].slot)
  }

  function Mems(live: seq<Rec>): (r: seq<nat>)
    ensures |r| == |live| && forall i | 0 <= i < |live| :: r[i] == live[i].mem
  {
    seq(|live|, i requires 0 <= i < |live| => live[i].mem)
  }

  /** Every record drawn, in whichever of the three stores it is. */
  ghost function Stores(s: State): multiset<nat> {
    multiset(Slots(s.live)) + multiset(s.pool) + multiset(s.inFlight)
  }

  ghost function Upto(n: nat): (r: multiset<nat>)
    ensures |r| == n && forall x: nat :: r[x] == if x < n then 1 else 0
  {
    if n == 0 then multiset{} else Upto(n - 1) + multiset{n - 1}
  }

  /** Each record ever drawn is in exactly one place; each address recorded and not freed is in the live list. */
  ghost predicate Inv(s: State) {
    && Stores(s) == Upto(s.drawn)
    && multiset(Mems(s.live)) + s.released == s.published
  }

  lemma WithoutParts(live: seq<Rec>, k: nat)
    requires k < |live|
    ensures var out := live[..k] + live[k + 1..];
      && multiset(Slots(live)) == multiset(Slots(out)) + multiset{live[k].slot}
      && multiset(Mems(live)) == multiset(Mems(out)) + multiset{live[k].mem}
  {
    var out := live[..k] + live[k + 1..];
    assert Slots(live) == Slots(live)[..k] + [live[k].slot] + Slots(live)[k + 1..];
    assert Slots(out) == Slots(live)[..k] + Slots(live)[k + 1..];
    assert Mems(live) == Mems(live)[..k] + [live[k].mem] + Mems(live)[k + 1..];
    assert Mems(out) == Mems(live)[..k] + Mems(live)[k + 1..];
  }

  lemma DrawInv(s: State)
    requires Inv(s)
    ensures Inv(Apply(s, Draw).0)
  {
    hide Inv;
    if s.pool != [] { DrawPooled(s); } else { DrawNew(s); }
  }

  lemma DrawPooled(s: State)
    requires Inv(s) && s.pool != []
    ensures Inv(Apply(s, Draw).0)
  {
    hide Slots, Mems, Upto;
    var x := s.pool[0];
    assert s.pool == [x] + s.pool[1..];
    assert multiset(s.pool) == multiset{x} + multiset(s.pool[1..]);
    assert Stores(s)[x] <= 1;
    assert multiset(Apply(s, Draw).0.inFlight) == multiset(s.inFlight) + multiset{x};
  }

  lemma DrawNew(s: State)
    requires Inv(s) && s.pool == []
    ensures Inv(Apply(s, Draw).0)
  {
    hide Slots, Mems;
    assert Stores(s)[s.drawn] == 0;
    assert multiset(Apply(s, Draw).0.inFlight) == multiset(s.inFlight) + multiset{s.drawn};
  }

  lemma PublishInv(s: State, a: Action)
    requires Inv(s) && a.Publish? && Enabled(s, a)
    ensures Inv(Apply(s, a).0)
  {
    var t := Apply(s, a).0;
    assert Slots(t.live) == [a.slot] + Slots(s.live) && Mems(t.live) == [a.mem] + Mems(s.live);
    assert multiset(Slots(t.live)) == multiset{a.slot} + multiset(Slots(s.live));
    assert multiset(Mems(t.live)) == multiset{a.mem} + multiset(Mems(s.live));
    assert multiset(s.inFlight) == multiset(t.inFlight) + multiset{a.slot};
  }

  lemma FreeInv(s: State, mem: nat)
    requires Inv(s)
    ensures Inv(Apply(s, Free(mem)).0)
  {
    hide Slots, Mems, FirstOf, Upto;
    var k := FirstOf(s.live, mem);
    if k < |s.live| {
      WithoutParts(s.live, k);
      var out, x := s.live[..k] + s.live[k + 1..], s.live[k].slot;
      assert multiset([x] + s.pool) == multiset{x} + multiset(s.pool);
      MoveOne(multiset(Slots(out)), multiset(s.pool), multiset(s.inFlight), x);
      MoveOne(multiset(Mems(out)), s.released, multiset{}, mem);
    }
  }

  lemma MoveOne(a: multiset<nat>, b: multiset<nat>, c: multiset<nat>, x: nat)
    ensures (a + multiset{x}) + b + c == a + (multiset{x} + b) + c
    ensures (a + multiset{x}) + b == a + (b + multiset{x})
  {
  }

  lemma StepInv(s: State, a: Action)
    requires Inv(s) && Enabled(s, a)
    ensures Inv(Apply(s, a).0)
  {
    match a
    case Draw => DrawInv(s);
    case Publish(_, _, _, _) => PublishInv(s, a);
    case Free(mem) => FreeInv(s, mem);
  }

  ghost predicate Legal(s: State, acts: seq<Action>)
    decreases |acts|
  {
    acts == [] || (Enabled(s, acts[0]) && Legal(Apply(s, acts[0]).0, acts[1..]))
  }

  ghost function End(s: State, acts: seq<Action>): State
    requires Legal(s, acts)
    decreases |acts|
  {
    if acts == [] then s else End(Apply(s, acts[0]).0, acts[1..])
  }

  ghost function Replies(s: State, acts: seq<Action>): seq<Reply>
    requires Legal(s, acts)
    decreases |acts|
  {
    if acts == [] then [] else [Apply(s, acts[0]).1] + Replies(Apply(s, acts[0]).0, acts[1..])
  }

  lemma {:induction false} RunInv(s: State, acts: seq<Action>)
    requires Inv(s) && Legal(s, acts)
    ensures Inv(End(s, acts))
    decreases |acts|
  {
    hide Inv, Apply, Enabled;
    if acts != [] {
      StepInv(s, acts[0]);
      RunInv(Apply(s, acts[0]).0, acts[1..]);
    }
  }

  /**
   * Under any interleaving: the records drawn are the live, the pooled and those in flight, none in two places;
   * and an address is live as often as it was recorded and not yet freed, even when two threads race for it.
   */
  lemma Conserved(acts: seq<Action>)
    requires Legal(EMPTY, acts)
    ensures var s := End(EMPTY, acts);
      && |s.live| + |s.pool| + |s.inFlight| == s.drawn
      && (forall x: nat :: x < s.drawn ==>
            multiset(Slots(s.live))[x] + multiset(s.pool)[x] + multiset(s.inFlight)[x] == 1)
      && |s.live| + |s.released| == |s.published|
      && (forall m: nat :: multiset(Mems(s.live))[m] + s.released[m] == s.published[m])
  {
    assert Inv(EMPTY) by { assert Stores(EMPTY) == multiset{}; }
    RunInv(EMPTY, acts);
    var s := End(EMPTY, acts);
    assert |Stores(s)| == |s.live| + |s.pool| + |s.inFlight|;
    forall x: nat | x < s.drawn
      ensures multiset(Slots(s.live))[x] + multiset(s.pool)[x] + multiset(s.inFlight)[x] == 1
    {
      assert Stores(s)[x] == 1;
    }
  }

  /** The addresses a run records. */
  ghost function Records(acts: seq<Action>): multiset<nat> {
    if acts == [] then multiset{} else
      Records(acts[..|acts| - 1])
      + if acts[|acts| - 1].Publish? then multiset{acts[|acts| - 1].mem} else multiset{}
  }

  /** The addresses it frees. */
  ghost function Releases(s: State, acts: seq<Action>): multiset<nat>
    requires Legal(s, acts)
    decreases |acts|
  {
    if acts == [] then multiset{} else
      Releases(Apply(s, acts[0]).0, acts[1..])
      + if acts[0].Free? && Apply(s, acts[0]).1 == Done then multiset{acts[0].mem} else multiset{}
  }

  lemma {:induction false} RecordsFirst(acts: seq<Action>)
    requires acts != []
    ensures Records(acts) == Records(acts[1..]) + if acts[0].Publish? then multiset{acts[0].mem} else multiset{}
  {
    if |acts| > 1 {
      RecordsFirst(acts[..|acts| - 1]);
      assert acts[..|acts| - 1][1..] == acts[1..][..|acts| - 2];
    }
  }

  lemma {:induction false} Tallies(s: State, acts: seq<Action>)
    requires Legal(s, acts)
    ensures End(s, acts).published == s.published + Records(acts)
    ensures End(s, acts).released == s.released + Releases(s, acts)
    decreases |acts|
  {
    hide FirstOf, Records;
    if acts == [] {
      NoRecords();
    } else {
      RecordsFirst(acts);
      Tallies(Apply(s, acts[0]).0, acts[1..]);
    }
  }

  lemma NoRecords()
    ensures Records([]) == multiset{}
  {
  }

  /** after is before without the newest record of the address. */
  ghost predicate Dropped(before: seq<Rec>, after: seq<Rec>, mem: nat) {
    exists k ::
      && 0 <= k < |before| && before[k].mem == mem && (forall j | 0 <= j < k :: before[j].mem != mem)
      && after == before[..k] + before[k + 1..]
  }

  /** A free takes out the newest record of the address, which goes to the pool, or changes nothing. */
  lemma FreeDrops(s: State, mem: nat)
    ensures var (t, reply) := Apply(s, Free(mem));
      if forall i | 0 <= i < |s.live| :: s.live[i].mem != mem then (t, reply) == (s, BadMemory) else
        && reply == Done && Dropped(s.live, t.live, mem) && t.drawn == s.drawn && t.inFlight == s.inFlight
        && exists k :: 0 <= k < |s.live| && s.live[k].mem == mem && t.pool == [s.live[k].slot] + s.pool
  {
    var k := FirstOf(s.live, mem);
    hide FirstOf;
    if k < |s.live| {
      assert s.live[k].mem == mem;
      assert Dropped(s.live, Apply(s, Free(mem)).0.live, mem);
      hide Dropped;
    }
  }

  /** The records that a run makes. */
  ghost function Added(acts: seq<Action>): multiset<Rec>
    decreases |acts|
  {
    if acts == [] then multiset{} else
      Added(acts[1..]) + AddedBy(acts[0])
  }

  ghost function AddedBy(a: Action): multiset<Rec> {
    if a.Publish? then multiset{Rec(a.slot, a.mem, a.size, a.traceSize)} else multiset{}
  }

  /** The records that it frees. */
  ghost function Gone(s: State, acts: seq<Action>): multiset<Rec>
    requires Legal(s, acts)
    decreases |acts|
  {
    if acts == [] then multiset{} else
      Gone(Apply(s, acts[0]).0, acts[1..]) + (multiset(s.live) - multiset(Apply(s, acts[0]).0.live))
  }

  lemma {:induction false} LiveTallies(s: State, acts: seq<Action>)
    requires Legal(s, acts)
    ensures multiset(End(s, acts).live) + Gone(s, acts) == multiset(s.live) + Added(acts)
    decreases |acts|
  {
    if acts != [] {
      var u := Apply(s, acts[0]).0;
      OneTally(s, acts[0]);
      LiveTallies(u, acts[1..]);
      Chained(multiset(s.live), multiset(u.live), multiset(End(u, acts[1..]).live),
              multiset(s.live) - multiset(u.live), Gone(u, acts[1..]), AddedBy(acts[0]), Added(acts[1..]));
    }
  }

  lemma Chained(a: multiset<Rec>, b: multiset<Rec>, c: multiset<Rec>,
                gone: multiset<Rec>, more: multiset<Rec>, added: multiset<Rec>, later: multiset<Rec>)
    requires b + gone == a + added && c + more == b + later
    ensures c + (more + gone) == a + (later + added)
  {
    forall x ensures (c + (more + gone))[x] == (a + (later + added))[x] {
      assert (b + gone)[x] == (a + added)[x] && (c + more)[x] == (b + later)[x];
    }
  }

  lemma OneTally(s: State, a: Action)
    requires Enabled(s, a)
    ensures var u := Apply(s, a).0;
      multiset(u.live) + (multiset(s.live) - multiset(u.live)) == multiset(s.live) + AddedBy(a)
  {
    if a.Free? {
      var k := FirstOf(s.live, a.mem);
      if k < |s.live| { assert s.live == s.live[..k] + [s.live[k]] + s.live[k + 1..]; }
    }
  }

  /**
   * A realloc that moves a block, with any steps of other threads between its three critical sections: in the end the
   * live addresses are those of before without the old one, with the new one, and what the others made of them.
   */
  lemma ReallocInterleaved(s: State, ptr: nat, mid: seq<Action>, last: Action)
    requires Inv(s) && FirstOf(s.live, ptr) < |s.live| && Legal(Apply(s, Free(ptr)).0, mid)
    requires last.Publish? && Enabled(End(Apply(s, Free(ptr)).0, mid), last)
    ensures var s1 := Apply(s, Free(ptr)).0;
      var t := Apply(End(s1, mid), last).0;
      multiset(Mems(t.live)) + multiset{ptr} + Releases(s1, mid)
        == multiset(Mems(s.live)) + multiset{last.mem} + Records(mid)
  {
    hide Inv, Mems, Slots, Records, Releases, FirstOf, Upto, Apply;
    var s1 := Apply(s, Free(ptr)).0;
    var (u, freed, recorded) := (End(s1, mid), multiset{ptr} + Releases(s1, mid), multiset{last.mem} + Records(mid));
    var t := Apply(u, last).0;
    FreeInv(s, ptr);
    RunInv(s1, mid);
    PublishInv(u, last);
    Moves(s, ptr);
    Tallies(s1, mid);
    Adds(u, last);
    assert t.released == s.released + freed && t.published == s.published + recorded;
    Balanced(s);
    Balanced(t);
    Cancel(multiset(Mems(s.live)), multiset(Mems(t.live)), s.released, s.published, freed, recorded);
    assert multiset(Mems(t.live)) + multiset{ptr} + Releases(s1, mid) == multiset(Mems(t.live)) + freed;
    assert multiset(Mems(s.live)) + multiset{last.mem} + Records(mid) == multiset(Mems(s.live)) + recorded;
  }

  /**
   * The same of whole records: the newest one of the old address goes, the others make and free theirs, and the new one
   * comes to the head of the list with the address, size and trace it was given.
   */
  lemma ReallocRecords(s: State, ptr: nat, mid: seq<Action>, last: Action)
    requires FirstOf(s.live, ptr) < |s.live| && Legal(Apply(s, Free(ptr)).0, mid)
    requires last.Publish? && Enabled(End(Apply(s, Free(ptr)).0, mid), last)
    ensures var s1 := Apply(s, Free(ptr)).0;
      var (u, t) := (End(s1, mid), Apply(End(s1, mid), last).0);
      && Dropped(s.live, s1.live, ptr)
      && multiset(u.live) + Gone(s1, mid) == multiset(s1.live) + Added(mid)
      && t.live == [Rec(last.slot, last.mem, last.size, last.traceSize)] + u.live
  {
    FreeDrops(s, ptr);
    var s1 := Apply(s, Free(ptr)).0;
    LiveTallies(s1, mid);
    Adds(End(s1, mid), last);
    hide Apply, Dropped, Added, Gone, FirstOf;
  }

  lemma Adds(s: State, a: Action)
    requires Enabled(s, a) && a.Publish?
    ensures Apply(s, a).0.published == s.published + multiset{a.mem} && Apply(s, a).0.released == s.released
    ensures Apply(s, a).0.live == [Rec(a.slot, a.mem, a.size, a.traceSize)] + s.live
  {
  }

  lemma Balanced(s: State)
    requires Inv(s)
    ensures multiset(Mems(s.live)) + s.released == s.published
  {
  }

  lemma Moves(s: State, ptr: nat)
    requires FirstOf(s.live, ptr) < |s.live|
    ensures var s1 := Apply(s, Free(ptr)).0;
      s1.published == s.published && s1.released == s.released + multiset{ptr}
  {
  }

  lemma Cancel(a: multiset<nat>, b: multiset<nat>, released: multiset<nat>, published: multiset<nat>,
               freed: multiset<nat>, recorded: multiset<nat>)
    requires a + released == published && b + (released + freed) == published + recorded
    ensures b + freed == a + recorded
  {
    forall x: nat ensures (b + freed)[x] == (a + recorded)[x] {
      assert (b + (released + freed))[x] == (published + recorded)[x] && (a + released)[x] == published[x];
    }
  }

  /** A free is refused exactly when the address has been freed as often as it was recorded. */
  lemma RefusedExactly(acts: seq<Action>, m: nat)
    requires Legal(EMPTY, acts)
    ensures var s := End(EMPTY, acts);
      Apply(s, Free(m)).1 == BadMemory <==> s.released[m] >= s.published[m]
  {
    Conserved(acts);
    var s := End(EMPTY, acts);
    var k := FirstOf(s.live, m);
    if k < |s.live| { assert Mems(s.live)[k] in multiset(Mems(s.live)); }
    if m in multiset(Mems(s.live)) { assert m in Mems(s.live); }
  }

  // ---------------------------------------------------------------- the report at exit

  /** What the loop at exit leaves out: records without a trace, and internal ones. */
  predicate Suppressed(r: Rec, internal: set<nat>) { r.traceSize == 0 || r.slot in internal }

  function Leaks(live: seq<Rec>, internal: set<nat>): (n: nat)
    ensures n <= |live|
  {
    if live == [] then 0 else
      Leaks(live[..|live| - 1], internal) + if Suppressed(live[|live| - 1], internal) then 0 else 1
  }

  function LeakSize(live: seq<Rec>, internal: set<nat>): nat {
    if live == [] then 0
    else
      LeakSize(live[..|live| - 1], internal)
      + if Suppressed(live[|live| - 1], internal) then 0 else live[|live| - 1].size
  }

  function Sum(s: seq<nat>): nat { if s == [] then 0 else Sum(s[..|s| - 1]) + s[|s| - 1] }

  function Sizes(live: seq<Rec>, ix: seq<nat>): (r: seq<nat>)
    requires forall j | 0 <= j < |ix| :: ix[j] < |live|
    ensures |r| == |ix| && forall j | 0 <= j < |r| :: r[j] == live[ix[j]].size
  {
    seq(|ix|, j requires 0 <= j < |ix| => live[ix[j]].size)
  }

  /** ix are the positions of the records that have a trace and are not internal, in order. */
  ghost predicate Reported(live: seq<Rec>, internal: set<nat>, ix: seq<nat>) {
    && (forall j, k | 0 <= j < k < |ix| :: ix[j] < ix[k])
    && (forall j | 0 <= j < |ix| :: ix[j] < |live|)
    && forall i | 0 <= i < |live| :: i in ix <==> live[i].traceSize > 0 && live[i].slot !in internal
  }

  /** The loop counts just these, and adds up their sizes. */
  lemma {:induction false} LeaksAre(live: seq<Rec>, internal: set<nat>) returns (ix: seq<nat>)
    ensures Reported(live, internal, ix)
    ensures Leaks(live, internal) == |ix| && LeakSize(live, internal) == Sum(Sizes(live, ix))
    decreases |live|
  {
    ix := [];
    if live != [] {
      var (n, before) := (|live| - 1, live[..|live| - 1]);
      var less := LeaksAre(before, internal);
      if live[n].traceSize > 0 && live[n].slot !in internal {
        ix := less + [n];
        OneMoreReported(live, internal, less);
      } else {
        ix := less;
        hide Leaks, LeakSize, Sum;
        assert Sizes(live, ix) == Sizes(before, less);
      }
    }
  }

  lemma OneMoreReported(live: seq<Rec>, internal: set<nat>, less: seq<nat>)
    requires live != [] && Reported(live[..|live| - 1], internal, less)
    requires live[|live| - 1].traceSize > 0 && live[|live| - 1].slot !in internal
    ensures var ix := less + [|live| - 1];
      && Reported(live, internal, ix)
      && Sum(Sizes(live, ix)) == Sum(Sizes(live[..|live| - 1], less)) + live[|live| - 1].size
  {
    var (n, ix) := (|live| - 1, less + [|live| - 1]);
    assert forall i | 0 <= i < n :: i in ix <==> i in less;
    assert Sizes(live, ix)[..|less|] == Sizes(live[..n], less);
  }

  /** An ascending sequence has as many members as it is long. */
  lemma {:induction false} AscendingCount(ix: seq<nat>, all: set<nat>)
    requires (forall j, k | 0 <= j < k < |ix| :: ix[j] < ix[k]) && forall x: nat :: x in ix <==> x in all
    ensures |ix| == |all|
  {
    if ix == [] {
      assert all == {};
    } else {
      var (less, last) := (ix[..|ix| - 1], ix[|ix| - 1]);
      assert ix == less + [last] && last !in less;
      AscendingCount(less, all - {last});
    }
  }

  /** The cardinality of the set of these positions. */
  lemma ReportedCount(live: seq<Rec>, internal: set<nat>, ix: seq<nat>)
    requires Reported(live, internal, ix)
    ensures |ix| == |set i: nat | i < |live| && live[i].traceSize > 0 && live[i].slot !in internal|
  {
    AscendingCount(ix, set i: nat | i < |live| && live[i].traceSize > 0 && live[i].slot !in internal);
  }

  /** With nothing internal and a trace of every record, that is every address recorded and not freed. */
  lemma AllReported(s: State)
    requires Inv(s) && forall i | 0 <= i < |s.live| :: s.live[i].traceSize > 0
    ensures Leaks(s.live, {}) == |s.live| == |s.published| - |s.released|
  {
    AllLeak(s.live);
    assert |multiset(Mems(s.live)) + s.released| == |s.live| + |s.released|;
  }

  lemma {:induction false} AllLeak(live: seq<Rec>)
    requires forall i | 0 <= i < |live| :: live[i].traceSize > 0
    ensures Leaks(live, {}) == |live|
  {
    if live != [] { AllLeak(live[..|live| - 1]); }
  }

  // ---------------------------------------------------------------- records

  /** What is recorded and freed at once leaves the list as it was. */
  lemma PublishThenFree(s: State, slot: nat, mem: nat, size: nat, traceSize: nat)
    requires slot in s.inFlight
    ensures var s1 := Apply(s, Publish(slot, mem, size, traceSize)).0;
      && s1.live == [Rec(slot, mem, size, traceSize)] + s.live && Apply(s1, Free(mem)).1 == Done
      && Apply(s1, Free(mem)).0.live == s.live && Apply(s1, Free(mem)).0.pool == [slot] + s.pool
  {
    var s1 := Apply(s, Publish(slot, mem, size, traceSize)).0;
    assert s1.live[..0] + s1.live[1..] == s.live;
  }

  // ---------------------------------------------------------------- how many records there are

  /** Records that are live, or that a thread is filling. */
  function InUse(s: State): nat { |s.live| + |s.inFlight| }

  /** The most that were in use at any time of the run. */
  ghost function HighWater(s: State, acts: seq<Action>): nat
    requires Legal(s, acts)
    decreases |acts|
  {
    if acts == [] then InUse(s) else
    var rest := HighWater(Apply(s, acts[0]).0, acts[1..]);
    if InUse(s) > rest then InUse(s) else rest
  }

  /** Records are reused: in any run, only so many are ever drawn from batches as were in use at the same time. */
  lemma DrawnIsHighWater(acts: seq<Action>)
    requires Legal(EMPTY, acts)
    ensures End(EMPTY, acts).drawn == HighWater(EMPTY, acts)
  {
    assert Inv(EMPTY) by { assert Stores(EMPTY) == multiset{}; }
    DrawnFrom(EMPTY, acts);
  }

  lemma {:induction false} DrawnFrom(s: State, acts: seq<Action>)
    requires Inv(s) && Legal(s, acts)
    ensures var h := HighWater(s, acts);
      End(s, acts).drawn == if s.drawn > h then s.drawn else h
    decreases |acts|
  {
    Used(s);
    if acts != [] {
      StepInv(s, acts[0]);
      Used(Apply(s, acts[0]).0);
      hide Inv;
      DrawnFrom(Apply(s, acts[0]).0, acts[1..]);
    }
  }

  lemma Used(s: State)
    requires Inv(s)
    ensures InUse(s) + |s.pool| == s.drawn
  {
    assert |Stores(s)| == |s.live| + |s.pool| + |s.inFlight|;
  }
}
