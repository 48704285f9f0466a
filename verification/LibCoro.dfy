/**
 * The scheduler of libcoro.c over its doubly linked list of coroutines.
 *
 * A context switch is the step that ends a segment: after it, coroThis names the context that runs.
 * Every segment is proved to do to `view` what CoroModel.Apply does.
 */
module LibCoro {
  import opened CoroModel

  /** struct coro, without its stack and saved context. */
  class CoroNode {
    var isFinished: bool
    var switchCount: int
    var next: CoroNode?
    var prev: CoroNode?
    /** Stands for the address: coroutines are numbered in creation order. */
    const id: nat

    constructor (id: nat)
      ensures this.id == id && !isFinished && switchCount == 0 && next == null && prev == null
    {
      this.id := id;
      isFinished, switchCount, next, prev := false, 0, null, null;
    }
  }

  class Scheduler {
    const coroSched: CoroNode
    var coroList: CoroNode?
    var isSchedWaiting: bool
    var coroThis: CoroNode
    /** The next address malloc hands out. */
    var created: nat

    /** Every coroutine ever created, the listed ones, and the state shown. */
    ghost var arena: seq<CoroNode>
    ghost var nodes: seq<CoroNode>
    ghost var view: Coros

    /** next, prev and coroList agree with the order of ns. */
    ghost predicate Links(ns: seq<CoroNode>)
      reads `coroList, ns`next, ns`prev
    {
      && (forall i {:trigger ns[i].next} | 0 <= i < |ns| - 1 :: ns[i].next == ns[i + 1])
      && (forall i {:trigger ns[i].prev} | 1 <= i < |ns| :: ns[i].prev == ns[i - 1])
      && (if ns == [] then coroList == null
          else coroList == ns[0] && ns[0].prev == null && ns[|ns| - 1].next == null)
    }

    static ghost predicate Placed(ar: seq<CoroNode>, ns: seq<CoroNode>, list: seq<nat>) {
      && (forall i | 0 <= i < |ar| :: ar[i].id == i)
      && |ns| == |list| && forall i | 0 <= i < |list| :: list[i] < |ar| && ns[i] == ar[list[i]]
    }

    static ghost predicate ShowsCoros(ar: seq<CoroNode>, cs: seq<Coro>, finished: set<nat>)
      reads ar`isFinished, ar`switchCount
    {
      && |ar| == |cs|
      && forall i | 0 <= i < |ar| :: ar[i].switchCount == cs[i].switches && (ar[i].isFinished <==> i in finished)
    }

    ghost predicate ShowsControl(s: Coros)
      reads `isSchedWaiting, `coroThis, `created, `arena, coroSched`switchCount, coroSched`next
    {
      && coroSched.next == null && coroSched.switchCount == s.schedSwitches && coroSched !in arena
      && isSchedWaiting == s.waiting && created == |s.coros|
      && (s.control.At? ==> s.control.id < |arena| && coroThis == arena[s.control.id])
      && (!s.control.At? ==> coroThis == coroSched)
    }

    ghost predicate Shows(s: Coros)
      reads `coroList, `isSchedWaiting, `coroThis, `created, `arena, `nodes, arena, nodes, coroSched
    {
      && Placed(arena, nodes, s.list) && Links(nodes)
      && ShowsCoros(arena, s.coros, s.finished) && ShowsControl(s)
    }

    ghost predicate Valid()
      reads this, arena, nodes, coroSched
    {
      Inv(view) && Shows(view)
    }

    /** coro_sched_init. */
    constructor ()
      ensures Valid() && view == EMPTY && arena == [] && nodes == [] && fresh(coroSched)
    {
      coroSched := new CoroNode(0);
      coroThis := coroSched;
      coroList, isSchedWaiting, created := null, false, 0;
      arena, nodes, view := [], [], EMPTY;
    }

    lemma Distinct(s: Coros)
      requires ListOk(s) && Shows(s)
      ensures forall i, j | 0 <= i < j < |nodes| :: nodes[i] != nodes[j]
      ensures forall i | 0 <= i < |nodes| :: nodes[i] in arena
    {
    }

    /** Lines 54-61. */
    method ListAdd(c: CoroNode)
      requires Links(nodes) && c !in nodes
      modifies `coroList, `nodes, c`next, c`prev, nodes`prev
      ensures Links(nodes) && nodes == [c] + old(nodes)
    {
      c.next := coroList;
      c.prev := null;
      if coroList != null { coroList.prev := c; }
      coroList := c;
      nodes := [c] + nodes;
    }

    /** Lines 65-74. */
    method ListDelete(c: CoroNode, ghost k: nat)
      requires Links(nodes) && k < |nodes| && c == nodes[k]
      requires forall i, j | 0 <= i < j < |nodes| :: nodes[i] != nodes[j]
      modifies `coroList, `nodes, nodes`next, nodes`prev
      ensures Links(nodes) && nodes == old(nodes[..k] + nodes[k + 1..])
    {
      var prev, next := c.prev, c.next;
      assert prev == (if k == 0 then null else nodes[k - 1]);
      assert next == (if k + 1 == |nodes| then null else nodes[k + 1]);
      if prev != null { prev.next := next; }
      if next != null { next.prev := prev; }
      if prev == null { coroList := next; }
      nodes := nodes[..k] + nodes[k + 1..];
    }

    /** The step from s to t is a switch: the context that ran has one more to its count. */
    static ghost predicate Switched(s: Coros, t: Coros) {
      && t.finished == s.finished && t.waiting == s.waiting
      && (if s.control.At? then
            && s.control.id < |s.coros| && t.schedSwitches == s.schedSwitches
            && t.coros == s.coros[s.control.id :=
                 s.coros[s.control.id].(switches := s.coros[s.control.id].switches + 1)]
          else
            t.coros == s.coros && t.schedSwitches == s.schedSwitches + 1)
    }

    /** Lines 103-110: when `to` runs again, it finds itself in coroThis. */
    method YieldTo(to: CoroNode, ghost s: Coros, ghost t: Coros)
      requires ShowsCoros(arena, s.coros, s.finished) && ShowsControl(s) && Switched(s, t)
      requires forall i | 0 <= i < |arena| :: arena[i].id == i
      requires if t.control.At? then t.control.id < |arena| && to == arena[t.control.id] else to == coroSched
      modifies `coroThis, arena`switchCount, coroSched`switchCount
      ensures ShowsCoros(arena, t.coros, t.finished) && ShowsControl(t)
    {
      assert s.control.At? ==> coroThis in arena;
      coroThis.switchCount := coroThis.switchCount + 1;
      coroThis := to;
    }

    /** Lines 187-258, without the set-up of the new stack. */
    method New() returns (c: CoroNode)
      requires Enabled(view, CoroModel.New) && Valid()
      modifies `coroList, `created, `arena, `nodes, `view, nodes`prev
      ensures view == Apply(old(view), CoroModel.New).0 && Valid()
      ensures fresh(c) && arena == old(arena) + [c] && nodes == [c] + old(nodes)
    {
      hide Inv, Apply, Shows, ListOk;
      StepInv(view, CoroModel.New);
      Parts(view);
      c := CreateNode();
      view := Apply(view, CoroModel.New).0;
    }

    method CreateNode() returns (c: CoroNode)
      requires Enabled(view, CoroModel.New) && Shows(view) && ListOk(view)
      modifies `coroList, `created, `arena, `nodes, nodes`prev
      ensures Shows(Apply(view, CoroModel.New).0)
      ensures fresh(c) && arena == old(arena) + [c] && nodes == [c] + old(nodes)
    {
      hide Links, Placed, ShowsCoros;
      Counted(view);
      ghost var ar, ns := arena, nodes;
      c := new CoroNode(created);
      created := created + 1;
      ListAdd(c);
      arena := arena + [c];
      PlacedMore(ar, ns, view.list, c);
      CorosMore(ar, view.coros, view.finished, c, view.rounds);
    }

    lemma Counted(s: Coros)
      requires Shows(s)
      ensures created == |arena| == |s.coros|
    {
      hide Links, Placed;
    }

    static lemma CorosMore(ar: seq<CoroNode>, cs: seq<Coro>, finished: set<nat>, c: CoroNode, born: int)
      requires ShowsCoros(ar, cs, finished) && c.switchCount == 0 && !c.isFinished && |cs| !in finished
      ensures ShowsCoros(ar + [c], cs + [Coro(0, born)], finished)
    {
    }

    static lemma PlacedMore(ar: seq<CoroNode>, ns: seq<CoroNode>, list: seq<nat>, c: CoroNode)
      requires Placed(ar, ns, list) && c.id == |ar|
      ensures Placed(ar + [c], [c] + ns, [|ar|] + list)
    {
    }

    static lemma PlacedLess(ar: seq<CoroNode>, ns: seq<CoroNode>, list: seq<nat>, k: nat)
      requires Placed(ar, ns, list) && k < |list|
      ensures Placed(ar, ns[..k] + ns[k + 1..], list[..k] + list[k + 1..])
    {
    }

    /** Line 136. */
    method Collect(c: CoroNode, ghost k: nat, ghost s: Coros)
      requires Shows(s) && ListOk(s) && !s.control.At? && k == FirstFinished(s.list, s.finished) < |s.list|
      requires k < |nodes| && c == nodes[k] && !s.waiting
      modifies `coroList, `nodes, nodes`next, nodes`prev
      ensures Shows(Scan(s).0) && nodes == old(nodes)[..k] + old(nodes)[k + 1..]
    {
      Distinct(s);
      PlacedLess(arena, nodes, s.list, k);
      hide Links, ListOk, Placed, ShowsCoros, ShowsControl, FirstFinished;
      ListDelete(c, k);
      IdleAgain(s);
    }

    lemma IdleAgain(s: Coros)
      requires ShowsControl(s) && !s.control.At? && s.list != [] && FirstFinished(s.list, s.finished) < |s.list|
      ensures ShowsControl(Scan(s).0)
    {
    }

    /** Lines 140-141. */
    method StartRound(ghost s: Coros)
      requires Shows(s) && !s.control.At? && s.list != [] && FirstFinished(s.list, s.finished) == |s.list|
      modifies `isSchedWaiting, `coroThis, arena`switchCount, coroSched`switchCount
      ensures Shows(Scan(s).0)
    {
      ListHead(s);
      isSchedWaiting := true;
      hide ShowsCoros, Links;
      YieldTo(coroList, s.(waiting := true), Scan(s).0);
    }

    /** Lines 133-141: collect a finished coroutine, or start a round. */
    method SchedLoop(ghost s: Coros) returns (c: CoroNode?)
      requires Shows(s) && ListOk(s) && !s.control.At? && !s.waiting
      modifies `coroList, `isSchedWaiting, `coroThis, `nodes, nodes`next, nodes`prev
      modifies arena`switchCount, coroSched`switchCount
      ensures Shows(Scan(s).0) && arena == old(arena)
      ensures match Scan(s).1
        case Returned(id) => c != null && id < |arena| && c == arena[id]
        case _ => c == null
      ensures forall i | 0 <= i < |nodes| :: nodes[i] in old(nodes)
    {
      hide Shows;
      if coroList == null {
        NoList(s);
        return null;
      }
      ghost var i := 0;
      c := coroList;
      ListHead(s);
      while c != null
        invariant i <= |nodes| && c == if i < |nodes| then nodes[i] else null
        invariant |nodes| == |s.list| && forall j | 0 <= j < i :: s.list[j] !in s.finished
        modifies {}
        decreases |nodes| - i
      {
        Cursor(s, i);
        if c.isFinished { break; }
        c := c.next;
        i := i + 1;
      }
      assert i == FirstFinished(s.list, s.finished);
      if c != null { Collect(c, i, s); } else { StartRound(s); }
    }

    lemma NoList(s: Coros)
      requires Shows(s) && coroList == null
      ensures s.list == [] && (!s.control.At? ==> Shows(s.(control := Idle)))
    {
    }

    lemma ListHead(s: Coros)
      requires Shows(s)
      ensures |nodes| == |s.list| && coroList == if nodes == [] then null else nodes[0]
    {
    }

    /** What a cursor on node number i sees. */
    lemma Cursor(s: Coros, i: nat)
      requires Shows(s) && i < |nodes|
      ensures i < |s.list| && s.list[i] < |arena| && nodes[i] == arena[s.list[i]]
      ensures nodes[i].next == if i + 1 < |nodes| then nodes[i + 1] else null
      ensures nodes[i].isFinished <==> s.list[i] in s.finished
    {
      assert nodes[i] == arena[s.list[i]];
    }

    /** A call of coro_sched_wait, up to its first switch. */
    method Wait() returns (c: CoroNode?)
      requires Enabled(view, CoroModel.Wait) && Valid()
      modifies this, nodes, arena`switchCount, coroSched`switchCount
      ensures view == Apply(old(view), CoroModel.Wait).0 && Valid()
      ensures arena == old(arena) && forall i | 0 <= i < |nodes| :: nodes[i] in old(nodes)
      ensures match Apply(old(view), CoroModel.Wait).1
        case Returned(id) => c != null && id < |arena| && c == arena[id]
        case _ => c == null
    {
      hide Inv, Shows, Scan, ListOk;
      StepInv(view, CoroModel.Wait);
      Parts(view);
      c := SchedLoop(view);
      view := Apply(view, CoroModel.Wait).0;
    }

    /** The scheduler runs again after line 141. */
    method Resume() returns (c: CoroNode?)
      requires Enabled(view, CoroModel.Resume) && Valid()
      modifies this, nodes, arena`switchCount, coroSched`switchCount
      ensures view == Apply(old(view), CoroModel.Resume).0 && Valid()
      ensures arena == old(arena) && forall i | 0 <= i < |nodes| :: nodes[i] in old(nodes)
      ensures match Apply(old(view), CoroModel.Resume).1
        case Returned(id) => c != null && id < |arena| && c == arena[id]
        case _ => c == null
    {
      hide Inv, Shows, Scan, ListOk;
      StepInv(view, CoroModel.Resume);
      Parts(view);
      ghost var s := view.(waiting := false);
      NotWaiting();
      c := SchedLoop(s);
      view := Apply(view, CoroModel.Resume).0;
    }

    lemma Parts(s: Coros)
      requires Inv(s)
      ensures ListOk(s) && ListOk(s.(waiting := false))
      ensures s.control.Idle? ==> !s.waiting
    {
    }

    /** Line 142. */
    method NotWaiting()
      requires Shows(view)
      modifies `isSchedWaiting
      ensures Shows(view.(waiting := false))
    {
      isSchedWaiting := false;
    }

    /** Lines 112-121. */
    method Yield()
      requires Enabled(view, CoroModel.Yield) && Valid()
      modifies this, arena`switchCount, coroSched`switchCount
      ensures view == Apply(old(view), CoroModel.Yield).0 && Valid()
      ensures arena == old(arena) && nodes == old(nodes)
    {
      hide Inv, Shows, Apply;
      StepInv(view, CoroModel.Yield);
      Running(view);
      var to := coroThis.next;
      ghost var t := Apply(view, CoroModel.Yield).0;
      Around(view);
      YieldTo(if to == null then coroSched else to, view, t);
      AfterYield(view, t);
      view := t;
    }

    lemma Around(s: Coros)
      requires Inv(s) && Shows(s) && Enabled(s, CoroModel.Yield)
      ensures ShowsCoros(arena, s.coros, s.finished) && ShowsControl(s) && Links(nodes) && Placed(arena, nodes, s.list)
      ensures var t := Apply(s, CoroModel.Yield).0;
        && Switched(s, t) && t.list == s.list
        && (t.control.At? ==> t.control.id < |arena| && arena[t.control.id] == coroThis.next)
        && (!t.control.At? ==> coroThis.next == null)
    {
      Running(s);
      Member(s);
      hide Inv, Links, ShowsCoros;
    }

    lemma AfterYield(s: Coros, t: Coros)
      requires Placed(arena, nodes, s.list) && Links(nodes) && t.list == s.list
      requires ShowsCoros(arena, t.coros, t.finished) && ShowsControl(t)
      ensures Shows(t)
    {
    }

    lemma Running(s: Coros)
      requires Shows(s) && Inv(s)
      ensures coroThis == coroSched || coroThis in arena
      ensures coroThis.next == if !s.control.At? || IndexOf(s.list, s.control.id) + 1 >= |nodes| then null
                               else nodes[IndexOf(s.list, s.control.id) + 1]
    {
      if s.control.At? {
        hide Fair, ReturnedOk;
        var k := IndexOf(s.list, s.control.id);
        Cursor(s, k);
      }
    }

    /** The running coroutine is an unfinished one of the list. */
    lemma Member(s: Coros)
      requires Inv(s) && Shows(s)
      ensures |arena| == |s.coros|
      ensures s.control.At? ==> IndexOf(s.list, s.control.id) < |s.list| == |nodes|
      ensures forall i | 0 <= i < |arena| :: arena[i].id == i
      ensures forall i | 0 <= i < |s.list| :: s.list[i] < |arena| && nodes[i] == arena[s.list[i]]
    {
      hide Fair, ReturnedOk, Links;
    }

    /** Lines 177-183. */
    method Finish()
      requires Enabled(view, CoroModel.Finish) && Valid()
      modifies this, arena`isFinished
      ensures view == Apply(old(view), CoroModel.Finish).0 && Valid()
      ensures arena == old(arena) && nodes == old(nodes)
    {
      hide Inv, Shows;
      StepInv(view, CoroModel.Finish);
      Waited(view);
      MarkFinished();
      view := Apply(view, CoroModel.Finish).0;
    }

    lemma Waited(s: Coros)
      requires Inv(s) && Shows(s) && s.control.At?
      ensures isSchedWaiting && s.waiting && coroThis in arena && forall i | 0 <= i < |arena| :: arena[i].id == i
    {
      hide Fair, ReturnedOk;
    }

    method MarkFinished()
      requires Enabled(view, CoroModel.Finish) && Shows(view) && view.waiting && coroThis in arena
      modifies `coroThis, arena`isFinished
      ensures Shows(Apply(view, CoroModel.Finish).0)
    {
      hide Links;
      coroThis.isFinished := true;
      if !isSchedWaiting {
        // "Critical error - no place to return!"
        assert false;
      }
      coroThis := coroSched;
    }
  }

  /** One segment of the running context. */
  method Execute(sched: Scheduler, a: Action) returns (reply: Reply)
    requires Enabled(sched.view, a) && sched.Valid()
    modifies sched, sched.nodes, sched.arena, sched.coroSched
    ensures (sched.view, reply) == Apply(old(sched.view), a) && sched.Valid()
    ensures forall i | 0 <= i < |sched.arena| :: sched.arena[i] in old(sched.arena) || fresh(sched.arena[i])
    ensures forall i | 0 <= i < |sched.nodes| :: sched.nodes[i] in old(sched.nodes) || fresh(sched.nodes[i])
  {
    hide Inv, Scheduler.Shows;
    ghost var was := sched.view;
    Plain(was, a);
    reply := Nothing;
    match a
    case New => var _ := sched.New();
    case Yield => sched.Yield();
    case Finish => sched.Finish();
    case Wait =>
      var c := sched.Wait();
      reply := Answer(c, sched.isSchedWaiting);
      ShowsFlag(sched);
    case Resume =>
      var c := sched.Resume();
      reply := Answer(c, sched.isSchedWaiting);
      ShowsFlag(sched);
  }

  /** What coro_sched_wait returned, if it did. */
  function Answer(c: CoroNode?, waiting: bool): Reply {
    if c != null then Returned(c.id) else if waiting then Nothing else Null
  }

  lemma Plain(s: Coros, a: Action)
    requires Inv(s) && Enabled(s, a)
    ensures var (t, reply) := Apply(s, a);
      && (a.New? || a.Yield? || a.Finish? ==> reply == Nothing)
      && (a.Wait? || a.Resume? ==> (reply.Nothing? ==> t.waiting) && (reply.Null? ==> !t.waiting))
  {
  }

  lemma ShowsFlag(sched: Scheduler)
    requires sched.Valid()
    ensures sched.isSchedWaiting == sched.view.waiting && forall i | 0 <= i < |sched.arena| :: sched.arena[i].id == i
  {
    hide Inv;
  }

  /** Coroutines doing anything they may do: the list, the counts and the flags go through the states of the machine. */
  method Replay(sched: Scheduler, acts: seq<Action>) returns (replies: seq<Reply>)
    requires Legal(sched.view, acts) && sched.Valid()
    modifies sched, sched.nodes, sched.arena, sched.coroSched
    ensures sched.view == End(old(sched.view), acts) && replies == Replies(old(sched.view), acts) && sched.Valid()
    decreases |acts|
  {
    hide Scheduler.Valid, Apply, Enabled;
    if acts == [] { return []; }
    var reply := Execute(sched, acts[0]);
    var rest := Replay(sched, acts[1..]);
    return [reply] + rest;
  }
}
