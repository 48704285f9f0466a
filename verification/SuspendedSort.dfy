/**
 * get_sorted_numbers as a coroutine runs it: it is left at every coro_yield, with its calls still open, and taken
 * up again from there. The arrays are followed by the positions their numbers come from.
 */
module SuspendedSort {
  import opened MergeSort

  /** A call that waits for the sort of its left half, or, with the sorted left half, for that of its right half. */
  datatype Call = LeftCall(from: nat, len: nat) | RightCall(from: nat, len: nat, left: array<int>)

  /** The same, with the positions of the left half. */
  datatype Frame = LeftFrame(from: nat, len: nat) | RightFrame(from: nat, len: nat, left: seq<nat>)

  predicate FitsOne(k: seq<int>, f: Frame) {
    f.len > 2 && f.from + f.len <= |k| && (f.RightFrame? ==> In(k, f.left))
  }

  predicate Fits(k: seq<int>, frames: seq<Frame>) { forall i | 0 <= i < |frames| :: FitsOne(k, frames[i]) }

  /** What a waiting call returns once the call it waits for has returned the numbers at p. */
  ghost function Returned(k: seq<int>, f: Frame, p: seq<nat>): (r: seq<nat>)
    requires FitsOne(k, f) && In(k, p)
    ensures In(k, r)
  {
    if f.LeftFrame? then MergeIx(k, p, SortIx(k, f.from + f.len / 2, f.len - f.len / 2)) else MergeIx(k, f.left, p)
  }

  /** What the outermost call returns when the innermost one returns p: frames run from the inside out. */
  ghost function Outcome(k: seq<int>, p: seq<nat>, frames: seq<Frame>): seq<nat>
    requires Fits(k, frames) && In(k, p)
    decreases |frames|
  {
    if frames == [] then p else Outcome(k, Returned(k, frames[0], p), frames[1..])
  }

  /** How often a waiting call and the calls it still has to make yield. */
  ghost function FrameYields(f: Frame): nat
    requires f.len > 2
  {
    1 + if f.LeftFrame? then Yields(f.len - f.len / 2) else 0
  }

  /** How often coro_yield is still called before the outermost call returns. */
  ghost function YieldsLeft(frames: seq<Frame>): nat
    requires forall i | 0 <= i < |frames| :: frames[i].len > 2
  {
    if frames == [] then 0 else FrameYields(frames[0]) + YieldsLeft(frames[1..])
  }

  lemma Inner(k: seq<int>, p: seq<nat>, f: Frame, frames: seq<Frame>)
    requires FitsOne(k, f) && Fits(k, frames) && In(k, p)
    ensures Fits(k, [f] + frames)
    ensures Outcome(k, p, [f] + frames) == Outcome(k, Returned(k, f, p), frames)
    ensures YieldsLeft([f] + frames) == FrameYields(f) + YieldsLeft(frames)
  {
    hide Returned, FrameYields;
    assert ([f] + frames)[1..] == frames;
  }

  ghost function Arrays(calls: seq<Call>): set<array<int>> {
    set i | 0 <= i < |calls| && calls[i].RightCall? :: calls[i].left
  }

  ghost predicate ShowsCall(k: seq<int>, c: Call, f: Frame)
    reads if c.RightCall? then {c.left} else {}
  {
    && c.from == f.from && c.len == f.len && (c.LeftCall? <==> f.LeftFrame?)
    && (c.RightCall? ==> In(k, f.left) && c.left[..] == Values(k, f.left))
  }

  /** The open calls hold the numbers at the positions of the frames. */
  ghost predicate ShowsCalls(k: seq<int>, calls: seq<Call>, frames: seq<Frame>)
    reads Arrays(calls)
  {
    && |calls| == |frames|
    && forall i | 0 <= i < |calls| ::
         assert calls[i].RightCall? ==> calls[i].left in Arrays(calls); ShowsCall(k, calls[i], frames[i])
  }

  /** A suspended sort: v is about to be returned to calls. */
  ghost predicate Standing(k: seq<int>, v: seq<int>, calls: seq<Call>, p: seq<nat>, frames: seq<Frame>)
    reads Arrays(calls)
  {
    Fits(k, frames) && ShowsCalls(k, calls, frames) && In(k, p) && v == Values(k, p)
  }

  /** It is going to return the numbers in the stable order, after so many yields. */
  ghost predicate Suspended(k: seq<int>, v: seq<int>, calls: seq<Call>, p: seq<nat>, frames: seq<Frame>, left: nat)
    reads Arrays(calls)
  {
    && k != [] && Standing(k, v, calls, p, frames)
    && Outcome(k, p, frames) == SortIx(k, 0, |k|) && YieldsLeft(frames) == left
  }

  /** Opening a call for the left half changes nothing: the call is worth what sorting its numbers is. */
  lemma Opens(k: seq<int>, from: nat, len: nat, m: nat, frames: seq<Frame>)
    requires len > 2 && m == len / 2 && from + len <= |k| && Fits(k, frames)
    ensures var inner := [LeftFrame(from, len)] + frames;
      && Fits(k, inner)
      && Outcome(k, SortIx(k, from, m), inner) == Outcome(k, SortIx(k, from, len), frames)
      && YieldsLeft(inner) + Yields(m) == YieldsLeft(frames) + Yields(len)
  {
    hide MergeIx, SortIx, Yields, Outcome, YieldsLeft;
    SplitIx(k, from, len, m);
    SplitYields(len, m);
    Inner(k, SortIx(k, from, m), LeftFrame(from, len), frames);
  }

  /** Lines 197-218: open calls down to the first yield. */
  method Descend(numbers: array<int>, start: nat, length: nat, outer: seq<Call>, ghost outerFrames: seq<Frame>)
    returns (v: array<int>, calls: seq<Call>, ghost p: seq<nat>, ghost frames: seq<Frame>)
    requires length > 0 && start + length <= numbers.Length
    requires Fits(numbers[..], outerFrames) && ShowsCalls(numbers[..], outer, outerFrames)
    ensures fresh(v) && Arrays(calls) == Arrays(outer) && Standing(numbers[..], v[..], calls, p, frames)
    ensures Outcome(numbers[..], p, frames) == Outcome(numbers[..], SortIx(numbers[..], start, length), outerFrames)
    ensures YieldsLeft(frames) + 1 == YieldsLeft(outerFrames) + Yields(length)
  {
    hide SortIx, MergeIx, Yields, Outcome, YieldsLeft, ShowsCalls;
    var from, len := start, length;
    calls, frames := outer, outerFrames;
    ghost var k := numbers[..];
    while len > 2
      invariant 0 < len && from + len <= numbers.Length && Arrays(calls) == Arrays(outer)
      invariant Fits(k, frames) && ShowsCalls(k, calls, frames)
      invariant Outcome(k, SortIx(k, from, len), frames) == Outcome(k, SortIx(k, start, length), outerFrames)
      invariant YieldsLeft(frames) + Yields(len) == YieldsLeft(outerFrames) + Yields(length)
      decreases len
    {
      Opens(k, from, len, len / 2, frames);
      OneMore(k, LeftCall(from, len), LeftFrame(from, len), calls, frames);
      calls, frames := [LeftCall(from, len)] + calls, [LeftFrame(from, len)] + frames;
      len := len / 2;
    }
    v, p := SortFew(numbers, from, len);
  }

  /** Lines 197-213. */
  method SortFew(numbers: array<int>, from: nat, len: nat) returns (v: array<int>, ghost p: seq<nat>)
    requires 0 < len <= 2 && from + len <= numbers.Length
    ensures fresh(v) && p == SortIx(numbers[..], from, len) && v[..] == Values(numbers[..], p) && Yields(len) == 1
  {
    hide MergeIx;
    v := new int[len];
    v[0] := numbers[from];
    p := [from];
    if len == 2 {
      v[1] := numbers[from + 1];
      p := [from, from + 1];
      if v[0] > v[1] {
        var temp := v[0];
        v[0] := v[1];
        v[1] := temp;
        p := [p[1], p[0]];
      }
    }
  }

  /** Line 218: the left half is sorted, and the call for the right half runs to its first yield. */
  method AfterLeft(numbers: array<int>, v: array<int>, c: Call, outer: seq<Call>,
                   ghost p: seq<nat>, ghost f: Frame, ghost outerFrames: seq<Frame>)
    returns (v': array<int>, calls: seq<Call>, ghost p': seq<nat>, ghost frames: seq<Frame>)
    requires c.LeftCall? && FitsOne(numbers[..], f) && ShowsCall(numbers[..], c, f)
    requires Standing(numbers[..], v[..], outer, p, outerFrames)
    ensures fresh(v') && Arrays(calls) <= Arrays(outer) + {v} && Standing(numbers[..], v'[..], calls, p', frames)
    ensures Outcome(numbers[..], p', frames) == Outcome(numbers[..], Returned(numbers[..], f, p), outerFrames)
    ensures YieldsLeft(frames) + 1 == YieldsLeft(outerFrames) + FrameYields(f)
  {
    hide SortIx, MergeIx, Yields, Outcome, YieldsLeft, ShowsCalls, Fits;
    var m := c.len / 2;
    var inner := RightCall(c.from, c.len, v);
    ghost var k, innerFrame := numbers[..], RightFrame(c.from, c.len, p);
    OneMore(k, inner, innerFrame, outer, outerFrames);
    Inner(k, SortIx(k, c.from + m, c.len - m), innerFrame, outerFrames);
    v', calls, p', frames := Descend(numbers, c.from + m, c.len - m, [inner] + outer, [innerFrame] + outerFrames);
  }

  /** Line 219: both halves are sorted. */
  method AfterRight(numbers: array<int>, v: array<int>, c: Call, ghost p: seq<nat>, ghost f: Frame)
    returns (v': array<int>, ghost p': seq<nat>)
    requires c.RightCall? && FitsOne(numbers[..], f) && ShowsCall(numbers[..], c, f)
    requires In(numbers[..], p) && v[..] == Values(numbers[..], p)
    ensures fresh(v') && p' == Returned(numbers[..], f, p) && v'[..] == Values(numbers[..], p') && FrameYields(f) == 1
  {
    hide MergeIx;
    v', p' := MergeSortedArrays(c.left, v, numbers[..], f.left, p);
  }

  /** From line 228 of the call that returns v to the next yield, or to the return of the outermost call. */
  method Continue(numbers: array<int>, v: array<int>, calls: seq<Call>, ghost p: seq<nat>, ghost frames: seq<Frame>)
    returns (finished: bool, v': array<int>, calls': seq<Call>, ghost p': seq<nat>, ghost frames': seq<Frame>)
    requires Standing(numbers[..], v[..], calls, p, frames)
    ensures finished <==> calls == []
    ensures finished ==> v' == v && p' == p && frames == []
    ensures !finished ==>
      && fresh(v') && Arrays(calls') <= Arrays(calls) + {v} && Standing(numbers[..], v'[..], calls', p', frames')
      && Outcome(numbers[..], p', frames') == Outcome(numbers[..], p, frames)
      && YieldsLeft(frames') + 1 == YieldsLeft(frames)
  {
    if calls == [] { return true, v, [], p, []; }
    hide Outcome, YieldsLeft, Returned, FrameYields, ShowsCall;
    finished := false;
    var c, outer := calls[0], calls[1..];
    ghost var k, f, outerFrames := numbers[..], frames[0], frames[1..];
    Outer(k, calls, frames);
    Inner(k, p, f, outerFrames);
    hide ShowsCalls, Fits;
    if c.LeftCall? {
      v', calls', p', frames' := AfterLeft(numbers, v, c, outer, p, f, outerFrames);
    } else {
      v', p' := AfterRight(numbers, v, c, p, f);
      calls', frames' := outer, outerFrames;
    }
  }

  /** Of a stack of calls, the innermost one and the others. */
  lemma Outer(k: seq<int>, calls: seq<Call>, frames: seq<Frame>)
    requires calls != [] && ShowsCalls(k, calls, frames) && Fits(k, frames)
    ensures frames != [] && frames == [frames[0]] + frames[1..]
    ensures ShowsCall(k, calls[0], frames[0]) && FitsOne(k, frames[0])
    ensures ShowsCalls(k, calls[1..], frames[1..]) && Fits(k, frames[1..])
    ensures Arrays(calls[1..]) <= Arrays(calls) && (calls[0].RightCall? ==> calls[0].left in Arrays(calls))
  {
    hide ShowsCall, FitsOne;
    assert forall i | 0 <= i < |calls| - 1 :: calls[1..][i] == calls[i + 1] && frames[1..][i] == frames[i + 1];
  }

  lemma OneMore(k: seq<int>, c: Call, f: Frame, calls: seq<Call>, frames: seq<Frame>)
    requires ShowsCalls(k, calls, frames) && Fits(k, frames) && ShowsCall(k, c, f) && FitsOne(k, f)
    ensures ShowsCalls(k, [c] + calls, [f] + frames) && Fits(k, [f] + frames)
    ensures Arrays([c] + calls) == Arrays(calls) + if c.RightCall? then {c.left} else {}
  {
    hide ShowsCall, FitsOne;
    MoreArrays(c, calls);
    var (more, moreFrames) := ([c] + calls, [f] + frames);
    forall i | 0 <= i < |more| ensures ShowsCall(k, more[i], moreFrames[i]) && FitsOne(k, moreFrames[i]) {
      if i > 0 {
        assert more[i] == calls[i - 1] && moreFrames[i] == frames[i - 1];
        assert ShowsCall(k, calls[i - 1], frames[i - 1]);
      }
    }
  }

  lemma MoreArrays(c: Call, calls: seq<Call>)
    ensures Arrays([c] + calls) == Arrays(calls) + if c.RightCall? then {c.left} else {}
  {
    var more := [c] + calls;
    forall a | a in Arrays(calls) ensures a in Arrays(more) {
      var i :| 0 <= i < |calls| && calls[i].RightCall? && calls[i].left == a;
      assert more[i + 1].left == a;
    }
    if c.RightCall? { assert more[0].left in Arrays(more); }
  }
}
