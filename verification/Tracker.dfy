/**
 * The allocation tracker of heap_help.c over its singly linked lists of records. Every critical section is
 * proved to do to `view` what TrackerModel.Apply does.
 */
module Tracker {
  import opened TrackerModel

  /** struct allocation. */
  class Allocation {
    var traceSize: nat
    var mem: nat
    var size: nat
    var next: Allocation?
    /** Stands for the address: its place among all the records of all the batches. */
    const slot: nat

    constructor (slot: nat)
      ensures this.slot == slot && next == null
    {
      this.slot := slot;
      traceSize, mem, size, next := 0, 0, 0, null;
    }
  }

  class Tracker {
    var allocs: Allocation?
    var allocPool: Allocation?
    var allocCount: int
    var allocCountTotal: int
    /** alloc_batch: how many batches were mapped, and what of the last one is used. */
    var batches: nat
    var used: nat

    /** Every record ever drawn; those in the two lists; the state shown. */
    ghost var arena: seq<Allocation>
    ghost var live: seq<Allocation>
    ghost var pool: seq<Allocation>
    ghost var view: State

    static ghost predicate Chain(first: Allocation?, ns: seq<Allocation>)
      reads ns`next
    {
      && first == (if ns == [] then null else ns[0])
      && (forall i {:trigger ns[i].next} | 0 <= i < |ns| - 1 :: ns[i].next == ns[i + 1])
      && (ns != [] ==> ns[|ns| - 1].next == null)
    }

    static ghost predicate Numbered(ar: seq<Allocation>) { forall i | 0 <= i < |ar| :: ar[i].slot == i }

    static ghost predicate Holds(ar: seq<Allocation>, ns: seq<Allocation>, slots: seq<nat>) {
      |ns| == |slots| && forall i | 0 <= i < |ns| :: slots[i] < |ar| && ns[i] == ar[slots[i]]
    }

    static ghost predicate ShowsRec(n: Allocation, r: Rec)
      reads n`mem, n`size, n`traceSize
    {
      n.slot == r.slot && n.mem == r.mem && n.size == r.size && n.traceSize == r.traceSize
    }

    static ghost predicate ShowsLive(ns: seq<Allocation>, recs: seq<Rec>)
      reads ns`mem, ns`size, ns`traceSize
    {
      |ns| == |recs| && forall i | 0 <= i < |ns| :: ShowsRec(ns[i], recs[i])
    }

    ghost predicate ShowsBatch(s: State)
      reads `batches, `used, `arena
    {
      && |arena| == s.drawn && Numbered(arena)
      && (batches == 0 ==> s.drawn == 0 && used == 0)
      && (batches > 0 ==> s.drawn == (batches - 1) * ALLOCATION_BATCH_SIZE + used && 0 < used <= ALLOCATION_BATCH_SIZE)
    }

    ghost predicate Shows(s: State)
      reads `allocs, `allocPool, `allocCount, `allocCountTotal, `batches, `used, `arena, `live, `pool, live, pool
    {
      && Chain(allocs, live) && Chain(allocPool, pool)
      && Holds(arena, live, Slots(s.live)) && Holds(arena, pool, s.pool) && ShowsLive(live, s.live)
      && ShowsBatch(s)
      && allocCount == |s.live| && allocCountTotal == |s.published|
    }

    ghost predicate Valid()
      reads this, live, pool
    {
      Inv(view) && Shows(view)
    }

    constructor ()
      ensures Valid() && view == EMPTY && live == [] && pool == [] && arena == []
    {
      allocs, allocPool, allocCount, allocCountTotal, batches, used := null, null, 0, 0, 0, 0;
      arena, live, pool, view := [], [], [], EMPTY;
      new;
      assert Stores(EMPTY) == multiset{};
    }

    /** No record is in two places. */
    lemma Apart(s: State)
      requires Inv(s) && Shows(s)
      ensures forall i, j | 0 <= i < j < |live| :: live[i] != live[j]
      ensures forall i, j | 0 <= i < j < |pool| :: pool[i] != pool[j]
      ensures forall i, j | 0 <= i < |live| && 0 <= j < |pool| :: live[i] != pool[j]
      ensures forall x | x in s.inFlight :: x < |arena| && arena[x] !in live && arena[x] !in pool
    {
      hide Chain, ShowsLive;
      forall i, j | 0 <= i < j < |live| ensures live[i] != live[j] { Once(s, Slots(s.live), i, j); }
      forall i, j | 0 <= i < j < |pool| ensures pool[i] != pool[j] { Once(s, s.pool, i, j); }
      forall i, j | 0 <= i < |live| && 0 <= j < |pool| ensures live[i] != pool[j] {
        assert Slots(s.live)[i] in multiset(Slots(s.live)) && s.pool[j] in multiset(s.pool);
        assert Stores(s)[Slots(s.live)[i]] <= 1;
      }
      forall x | x in s.inFlight ensures x < |arena| && arena[x] !in live && arena[x] !in pool {
        assert Stores(s)[x] == multiset(Slots(s.live))[x] + multiset(s.pool)[x] + 1;
        assert x !in multiset(Slots(s.live)) && x !in multiset(s.pool);
        assert x !in Slots(s.live) && x !in s.pool;
      }
    }

    lemma Once(s: State, slots: seq<nat>, i: nat, j: nat)
      requires Inv(s) && (slots == s.pool || slots == Slots(s.live)) && i < j < |slots|
      ensures slots[i] != slots[j]
    {
      assert multiset(slots) <= Stores(s);
      assert slots == slots[..j] + [slots[j]] + slots[j + 1..];
      assert multiset(slots) == multiset(slots[..j]) + multiset{slots[j]} + multiset(slots[j + 1..]);
      assert slots[..j][i] in multiset(slots[..j]);
      assert Stores(s)[slots[j]] <= 1;
    }

    /** Lines 168-185: a record from the pool, or the next one of a batch. */
    method Draw() returns (a: Allocation)
      requires Valid()
      modifies this
      ensures view == Apply(old(view), TrackerModel.Draw).0 && Valid()
      ensures Apply(old(view), TrackerModel.Draw).1 == Slot(a.slot) && a.slot in view.inFlight
      ensures a.slot < |arena| && arena[a.slot] == a && live == old(live)
      ensures if old(pool) == [] then fresh(a) && arena == old(arena) + [a] && pool == [] else
        a == old(pool)[0] && arena == old(arena) && pool == old(pool)[1..]
    {
      hide Inv, Shows, Apply;
      StepInv(view, TrackerModel.Draw);
      Ends(view);
      if allocPool != null {
        a := FromPool();
      } else {
        a := FromBatch();
      }
      view := Apply(view, TrackerModel.Draw).0;
    }

    lemma Ends(s: State)
      requires Shows(s)
      ensures |live| == |s.live| && |pool| == |s.pool|
      ensures allocs == (if live == [] then null else live[0]) && allocPool == (if pool == [] then null else pool[0])
    {
      hide ShowsLive;
      assert |Slots(s.live)| == |s.live|;
    }

    /** Lines 169-171. */
    method FromPool() returns (a: Allocation)
      requires Shows(view) && pool != [] && view.pool != []
      modifies `allocPool, `pool
      ensures Shows(Apply(view, TrackerModel.Draw).0) && a == old(pool)[0] && pool == old(pool)[1..]
      ensures Apply(view, TrackerModel.Draw).1 == Slot(a.slot) && a.slot in Apply(view, TrackerModel.Draw).0.inFlight
      ensures a.slot < |arena| && arena[a.slot] == a
    {
      hide ShowsLive;
      PoolRest(arena, pool, view.pool);
      assert pool[0] == arena[view.pool[0]];
      hide Holds;
      a := allocPool;
      allocPool := a.next;
      pool := pool[1..];
    }

    /** Lines 173-183. */
    method FromBatch() returns (a: Allocation)
      requires Shows(view) && pool == [] && view.pool == []
      modifies `batches, `used, `arena
      ensures Shows(Apply(view, TrackerModel.Draw).0) && fresh(a) && arena == old(arena) + [a]
      ensures Apply(view, TrackerModel.Draw).1 == Slot(a.slot) && a.slot == |old(arena)|
      ensures a.slot in Apply(view, TrackerModel.Draw).0.inFlight
    {
      hide ShowsLive, Chain;
      if batches == 0 || used == ALLOCATION_BATCH_SIZE {
        batches := batches + 1;
        used := 0;
      } else {
        assert used < ALLOCATION_BATCH_SIZE;
      }
      a := new Allocation((batches - 1) * ALLOCATION_BATCH_SIZE + used);
      used := used + 1;
      MoreArena(arena, a, live, Slots(view.live));
      arena := arena + [a];
    }

    static lemma MoreArena(ar: seq<Allocation>, a: Allocation, ns: seq<Allocation>, slots: seq<nat>)
      requires Holds(ar, ns, slots)
      ensures Holds(ar + [a], ns, slots)
    {
    }

    static lemma PoolRest(ar: seq<Allocation>, ns: seq<Allocation>, slots: seq<nat>)
      requires Holds(ar, ns, slots) && ns != []
      ensures Holds(ar, ns[1..], slots[1..])
    {
    }

    /** Lines 187-192: the record is the thread's own, so nobody holds the lock. */
    method Fill(a: Allocation, ptr: nat, size: nat, traceSize: nat)
      requires Valid() && a.slot in view.inFlight && a.slot < |arena| && arena[a.slot] == a
      modifies a`mem, a`size, a`traceSize
      ensures Valid() && a.mem == ptr && a.size == size && a.traceSize == traceSize
    {
      Apart(view);
      hide Inv;
      a.mem := ptr;
      a.size := size;
      a.traceSize := traceSize;
    }

    /** Lines 195-200. */
    method Publish(a: Allocation)
      requires Valid() && a.slot in view.inFlight && a.slot < |arena| && arena[a.slot] == a
      modifies this, a`next
      ensures view == Apply(old(view), TrackerModel.Publish(a.slot, a.mem, a.size, a.traceSize)).0 && Valid()
      ensures arena == old(arena) && live == [a] + old(live) && pool == old(pool)
    {
      hide Inv, Shows, Apply;
      ghost var act := TrackerModel.Publish(a.slot, a.mem, a.size, a.traceSize);
      StepInv(view, act);
      Apart(view);
      Insert(a);
      view := Apply(view, act).0;
    }

    method Insert(a: Allocation)
      requires Shows(view) && a.slot in view.inFlight && a.slot < |arena| && arena[a.slot] == a
      requires a !in live && a !in pool
      modifies `allocs, `allocCount, `allocCountTotal, `live, a`next
      ensures Shows(Apply(view, TrackerModel.Publish(a.slot, a.mem, a.size, a.traceSize)).0)
      ensures live == [a] + old(live)
    {
      Joined(arena, live, view.live, a);
      Ends(view);
      hide Holds, ShowsLive, ShowsBatch, Slots;
      a.next := allocs;
      allocs := a;
      allocCount := allocCount + 1;
      allocCountTotal := allocCountTotal + 1;
      live := [a] + live;
      SameBatch(view, Apply(view, TrackerModel.Publish(a.slot, a.mem, a.size, a.traceSize)).0);
    }

    lemma SameBatch(s: State, t: State)
      requires ShowsBatch(s) && s.drawn == t.drawn
      ensures ShowsBatch(t)
    {
    }

    static lemma Joined(ar: seq<Allocation>, ns: seq<Allocation>, recs: seq<Rec>, a: Allocation)
      requires Holds(ar, ns, Slots(recs)) && ShowsLive(ns, recs) && a.slot < |ar| && ar[a.slot] == a
      ensures var r := Rec(a.slot, a.mem, a.size, a.traceSize);
        Holds(ar, [a] + ns, Slots([r] + recs)) && ShowsLive([a] + ns, [r] + recs)
    {
      var r := Rec(a.slot, a.mem, a.size, a.traceSize);
      assert Slots([r] + recs) == [a.slot] + Slots(recs);
    }

    /** Lines 217-224: record number k moves from the live list to the pool. */
    method Recycle(a: Allocation, prev: Allocation?, ghost k: nat)
      requires Chain(allocs, live) && Chain(allocPool, pool) && k < |live| && a == live[k]
      requires prev == if k == 0 then null else live[k - 1]
      requires forall i, j | 0 <= i < j < |live| :: live[i] != live[j]
      requires forall i, j | 0 <= i < |live| && 0 <= j < |pool| :: live[i] != pool[j]
      modifies `allocs, `allocPool, `live, `pool, live`next
      ensures Chain(allocs, live) && Chain(allocPool, pool)
      ensures live == old(live[..k] + live[k + 1..]) && pool == [a] + old(pool)
    {
      assert a.next == (if k + 1 == |live| then null else live[k + 1]);
      if prev == null { allocs := a.next; } else { prev.next := a.next; }
      a.next := allocPool;
      allocPool := a;
      pool := [a] + pool;
      live := live[..k] + live[k + 1..];
    }

    static lemma Taken(ar: seq<Allocation>, ns: seq<Allocation>, recs: seq<Rec>,
                       ps: seq<Allocation>, slots: seq<nat>, k: nat)
      requires Holds(ar, ns, Slots(recs)) && ShowsLive(ns, recs) && Holds(ar, ps, slots) && k < |ns|
      ensures var out := recs[..k] + recs[k + 1..];
        && Holds(ar, ns[..k] + ns[k + 1..], Slots(out)) && ShowsLive(ns[..k] + ns[k + 1..], out)
        && Holds(ar, [ns[k]] + ps, [recs[k].slot] + slots)
    {
      hide ShowsRec;
    }

    /** Lines 213-234. */
    method Free(ptr: nat) returns (found: bool)
      requires Valid()
      modifies this, live`next
      ensures view == Apply(old(view), TrackerModel.Free(ptr)).0 && Valid()
      ensures found <==> Apply(old(view), TrackerModel.Free(ptr)).1 == Done
      ensures arena == old(arena) && forall i | 0 <= i < |live| :: live[i] in old(live)
      ensures forall i | 0 <= i < |pool| :: pool[i] in old(pool) || pool[i] in old(live)
    {
      hide Inv, Shows, Apply;
      StepInv(view, TrackerModel.Free(ptr));
      Ends(view);
      Apart(view);
      FreeEffect(view, ptr);
      var a, prev;
      ghost var i;
      a, prev, i := Search(ptr);
      if a == null { return false; }
      Remove(a, prev, i, ptr);
      view := Apply(view, TrackerModel.Free(ptr)).0;
      return true;
    }

    /** Lines 214-230: the newest live record of the address, and the one before it in the list. */
    method Search(ptr: nat) returns (a: Allocation?, prev: Allocation?, ghost i: nat)
      requires Valid()
      ensures i == FirstOf(view.live, ptr) <= |view.live| == |live|
      ensures a == (if i < |live| then live[i] else null) && prev == if i == 0 then null else live[i - 1]
    {
      hide Inv, Shows;
      Ends(view);
      a, prev, i := allocs, null, 0;
      while a != null && a.mem != ptr
        invariant i <= |live| && a == (if i < |live| then live[i] else null)
        invariant prev == if i == 0 then null else live[i - 1]
        invariant |live| == |view.live| && forall j | 0 <= j < i :: view.live[j].mem != ptr
        modifies {}
        decreases |live| - i
      {
        Cursor(view, i);
        prev := a;
        a := a.next;
        i := i + 1;
      }
      if i < |live| { Cursor(view, i); }
    }

    /** What a cursor on live record number i sees. */
    lemma Cursor(s: State, i: nat)
      requires Shows(s) && i < |live|
      ensures i < |s.live| && ShowsRec(live[i], s.live[i])
      ensures live[i].next == if i + 1 < |live| then live[i + 1] else null
    {
      hide Holds;
    }

    lemma FreeEffect(s: State, ptr: nat)
      ensures var k := FirstOf(s.live, ptr);
        Apply(s, TrackerModel.Free(ptr))
          == if k == |s.live| then (s, BadMemory)
             else (s.(live := s.live[..k] + s.live[k + 1..], pool := [s.live[k].slot] + s.pool,
                      released := s.released + multiset{ptr}), Done)
    {
    }

    /** Lines 217-227. */
    method Remove(a: Allocation, prev: Allocation?, ghost k: nat, ghost ptr: nat)
      requires Shows(view) && k == FirstOf(view.live, ptr) < |view.live| == |live|
      requires a == live[k] && prev == if k == 0 then null else live[k - 1]
      requires forall i, j | 0 <= i < j < |live| :: live[i] != live[j]
      requires forall i, j | 0 <= i < |live| && 0 <= j < |pool| :: live[i] != pool[j]
      modifies `allocs, `allocPool, `live, `pool, `allocCount, live`next
      ensures Shows(Apply(view, TrackerModel.Free(ptr)).0)
      ensures live == old(live[..k] + live[k + 1..]) && pool == [a] + old(pool)
    {
      hide ShowsLive, Holds, FirstOf, ShowsBatch, Chain, Slots, Apply;
      FreeEffect(view, ptr);
      Taken(arena, live, view.live, pool, view.pool, k);
      Recycle(a, prev, k);
      SameBatch(view, Apply(view, TrackerModel.Free(ptr)).0);
      allocCount := allocCount - 1;
      assert allocCount >= 0;
    }

    /** alloc_trace_new, when no other thread comes in between. */
    method AllocTraceNew(ptr: nat, size: nat, traceSize: nat)
      requires Valid()
      modifies this, live`next, pool
      ensures Valid()
      ensures |view.live| == |old(view.live)| + 1 && view.live[1..] == old(view.live)
      ensures view.live[0].mem == ptr && view.live[0].size == size && view.live[0].traceSize == traceSize
      ensures view.published == old(view.published) + multiset{ptr} && view.released == old(view.released)
      ensures forall i | 0 <= i < |live| :: live[i] in old(live) || live[i] in old(pool) || fresh(live[i])
    {
      hide Inv, Shows;
      Ends(view);
      var a := Draw();
      Fill(a, ptr, size, traceSize);
      Publish(a);
    }

    /**
     * The tracking part of realloc, lines 553-560; zero stands for NULL. It fails, changing nothing, exactly if the
     * old address is to be dropped and was never recorded, or has been freed since.
     */
    method Realloc(ptr: nat, res: nat, size: nat, traceSize: nat) returns (ok: bool)
      requires Valid()
      modifies this, live, pool
      ensures Valid() && (ok <==> ptr == 0 || ptr == res || old(view.released)[ptr] < old(view.published)[ptr])
      ensures !ok ==> view == old(view)
      ensures ok ==>
        && view.published == old(view.published) + (if res != 0 && res != ptr then multiset{res} else multiset{})
        && view.released == old(view.released) + if ptr != 0 && res != ptr then multiset{ptr} else multiset{}
      ensures ok ==>
        if res == ptr then view.live == old(view.live)
        else if res == 0 then Dropped(old(view.live), view.live, ptr)
        else
          && view.live != []
          && view.live[0].mem == res && view.live[0].size == size && view.live[0].traceSize == traceSize
          && if ptr == 0 then view.live[1..] == old(view.live) else Dropped(old(view.live), view.live[1..], ptr)
    {
      hide Inv, Shows, Dropped, Apply;
      Ends(view);
      ok := true;
      if ptr == 0 && res != 0 {
        AllocTraceNew(res, size, traceSize);
      } else if ptr != 0 && res == 0 {
        Recorded(view, ptr);
        FreeDrops(view, ptr);
        ok := Free(ptr);
      } else if ptr != 0 && res != ptr {
        Recorded(view, ptr);
        FreeDrops(view, ptr);
        ok := Free(ptr);
        if ok {
          Ends(view);
          AllocTraceNew(res, size, traceSize);
        }
      }
    }

    /** An address is live exactly if it has been recorded more often than freed. */
    lemma Recorded(s: State, m: nat)
      requires Inv(s)
      ensures FirstOf(s.live, m) < |s.live| <==> s.released[m] < s.published[m]
      ensures Apply(s, TrackerModel.Free(m)).1 == (if FirstOf(s.live, m) < |s.live| then Done else BadMemory)
      ensures Apply(s, TrackerModel.Free(m)).1 == BadMemory ==> Apply(s, TrackerModel.Free(m)).0 == s
      ensures Apply(s, TrackerModel.Free(m)).1 == Done ==>
        && Apply(s, TrackerModel.Free(m)).0.released == s.released + multiset{m}
        && Apply(s, TrackerModel.Free(m)).0.published == s.published
    {
      var k := FirstOf(s.live, m);
      assert k < |s.live| ==> Mems(s.live)[k] == m && m in multiset(Mems(s.live));
      assert m in multiset(Mems(s.live)) ==> m in Mems(s.live);
    }

    /**
     * Lines 367-409: the report at exit. internal holds the records whose trace resolves to library code.
     * The assertion of line 390 never fails.
     */
    method Report(internal: set<nat>)
      returns (count: int, suppressed: int, reported: int, leakSize: nat, ghost leaks: seq<nat>)
      requires Valid()
      ensures count == |set i: nat | i < |view.live| && view.live[i].traceSize > 0 && view.live[i].slot !in internal|
      ensures forall j, k | 0 <= j < k < |leaks| :: leaks[j] < leaks[k]
      ensures forall i: nat ::
        i in leaks <==> i < |view.live| && view.live[i].traceSize > 0 && view.live[i].slot !in internal
      ensures (forall j | 0 <= j < |leaks| :: leaks[j] < |view.live|) && leakSize == Sum(Sizes(view.live, leaks))
      ensures count == |leaks| && count + suppressed == |view.live| && reported == if count < 10 then count else 10
      ensures internal == {} && (forall i | 0 <= i < |view.live| :: view.live[i].traceSize > 0) ==>
        count == |view.published| - |view.released|
    {
      hide Inv, Sum;
      count, suppressed, reported, leakSize := Count(internal);
      leaks := LeaksAre(view.live, internal);
      ReportedCount(view.live, internal, leaks);
      if internal == {} && forall i | 0 <= i < |view.live| :: view.live[i].traceSize > 0 { AllReported(view); }
    }

    /** The same by the recursion that follows the loop. */
    method Count(internal: set<nat>) returns (count: int, suppressed: int, reported: int, leakSize: nat)
      requires Valid()
      ensures count == Leaks(view.live, internal) && count + suppressed == |view.live|
      ensures reported == (if count < 10 then count else 10) && leakSize == LeakSize(view.live, internal)
    {
      hide Inv;
      count, reported, leakSize := allocCount, 0, 0;
      var totalCount := count;
      if count == 0 { return 0, 0, 0, 0; }
      var a := allocs;
      ghost var i := 0;
      ghost var recs := view.live;
      while a != null
        invariant i <= |live| == |recs| && a == (if i < |live| then live[i] else null)
        invariant count == |recs| - i + Leaks(recs[..i], internal) && leakSize == LeakSize(recs[..i], internal)
        invariant reported == if Leaks(recs[..i], internal) < 10 then Leaks(recs[..i], internal) else 10
        decreases |live| - i
      {
        assert ShowsRec(live[i], recs[i]);
        assert count > 0;
        assert recs[..i + 1][..i] == recs[..i];
        if a.traceSize == 0 {
          count := count - 1;
        } else {
          var isInternal := a.slot in internal;
          if isInternal {
            count := count - 1;
          } else if reported < 10 {
            reported := reported + 1;
          }
          if !isInternal { leakSize := leakSize + a.size; }
        }
        a := a.next;
        i := i + 1;
      }
      assert recs[..i] == recs;
      suppressed := totalCount - count;
    }
  }

  /** A program that records one block reports it, with its size; once the block is freed it reports nothing. */
  method OneBlock(mem: nat, size: nat, traceSize: nat)
    returns (count: int, suppressed: int, reported: int, leakSize: nat,
             count': int, suppressed': int, reported': int, leakSize': nat)
    requires traceSize > 0
    ensures count == 1 && suppressed == 0 && reported == 1 && leakSize == size
    ensures count' == suppressed' == reported' == leakSize' == 0
  {
    hide Inv, Tracker.Shows, TrackerModel.Apply;
    var t := new Tracker();
    t.AllocTraceNew(mem, size, traceSize);
    ghost var leaks, leaks';
    count, suppressed, reported, leakSize, leaks := t.Report({});
    OnlyOne(t.view.live, leaks);
    FreeDrops(t.view, mem);
    t.Recorded(t.view, mem);
    var found := t.Free(mem);
    count', suppressed', reported', leakSize', leaks' := t.Report({});
  }

  lemma OnlyOne(live: seq<Rec>, leaks: seq<nat>)
    requires |live| == 1 && live[0].traceSize > 0 && |leaks| == 1
    requires forall i: nat :: i in leaks <==> i < |live| && live[i].traceSize > 0 && live[i].slot !in {}
    ensures leaks == [0] && Sum(Sizes(live, leaks)) == live[0].size
  {
    assert leaks[0] in leaks;
    assert Sizes(live, leaks)[..0] == [];
  }

  /** The records that threads hold between the two critical sections of alloc_trace_new. */
  ghost predicate Held(t: Tracker, held: map<nat, Allocation>)
    reads t
  {
    forall x | x in t.view.inFlight :: x in held && x < |t.arena| && t.arena[x] == held[x]
  }

  lemma FreshSlot(t: Tracker)
    requires t.Valid()
    ensures |t.arena| == t.view.drawn && forall i | 0 <= i < |t.arena| :: t.arena[i].slot == i
    ensures |t.live| == |t.view.live| && |t.pool| == |t.view.pool|
    ensures forall x | x in t.view.inFlight :: x < |t.arena|
    ensures forall i | 0 <= i < |t.live| :: t.live[i] in t.arena
    ensures forall i | 0 <= i < |t.pool| :: t.pool[i] in t.arena
  {
    t.Apart(t.view);
    t.Ends(t.view);
    hide Inv;
  }

  /** One critical section of one thread. */
  method Execute(t: Tracker, held: map<nat, Allocation>, a: Action) returns (reply: Reply, held': map<nat, Allocation>)
    requires t.Valid() && Enabled(t.view, a) && Held(t, held)
    modifies t, t.arena
    ensures (t.view, reply) == Apply(old(t.view), a) && t.Valid() && Held(t, held')
    ensures forall i | 0 <= i < |t.arena| :: t.arena[i] in old(t.arena) || fresh(t.arena[i])
  {
    hide Inv, Tracker.Shows;
    FreshSlot(t);
    held' := held;
    match a
    case Draw =>
      var r := t.Draw();
      held' := held[r.slot := r];
      reply := Slot(r.slot);
    case Publish(slot, mem, size, traceSize) =>
      var r := held[slot];
      t.Fill(r, mem, size, traceSize);
      t.Publish(r);
      reply := Done;
    case Free(mem) =>
      t.FreeEffect(t.view, mem);
      var found := t.Free(mem);
      reply := if found then Done else BadMemory;
  }

  /** Threads taking their critical sections in any order: the lists go through the states of the machine. */
  method Replay(t: Tracker, held: map<nat, Allocation>, acts: seq<Action>) returns (replies: seq<Reply>)
    requires t.Valid() && Legal(t.view, acts) && Held(t, held)
    modifies t, t.arena
    ensures t.view == End(old(t.view), acts) && replies == Replies(old(t.view), acts) && t.Valid()
    decreases |acts|
  {
    hide Tracker.Valid, Apply, Enabled;
    if acts == [] { return []; }
    var reply, held' := Execute(t, held, acts[0]);
    var rest := Replay(t, held', acts[1..]);
    return [reply] + rest;
  }
}
