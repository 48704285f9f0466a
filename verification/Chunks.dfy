/**
 * A file's bytes, seen as the sequence of pieces its blocks hold.
 *
 * The cursor loops of ufs_write, ufs_read and ufs_resize are written here as
 * recursions over the pieces, one call per loop iteration, and are proved to act
 * on the concatenated content the way a flat byte string would.
 */
module Chunks {
  newtype byte = x: int | 0 <= x < 256

  const BLOCK_SIZE := 512
  const MAX_FILE_SIZE := 1024 * 1024 * 100

  function Min(a: int, b: int): int { if a < b then a else b }

  function Max(a: int, b: int): int { if a > b then a else b }

  /** How many blocks n bytes take. */
  function BlocksFor(n: nat): (k: nat)
    ensures n <= k * BLOCK_SIZE < n + BLOCK_SIZE
  {
    if n == 0 then 0 else 1 + BlocksFor(Max(n - BLOCK_SIZE, 0))
  }

  /** The content of a file whose blocks hold cs. */
  function Join(cs: seq<seq<byte>>): seq<byte> {
    if cs == [] then [] else cs[0] + Join(cs[1..])
  }

  /** Every piece before the first non-full one is full, every piece after it is empty. */
  ghost predicate Shaped(cs: seq<seq<byte>>) {
    && (forall i | 0 <= i < |cs| :: |cs[i]| <= BLOCK_SIZE)
    && (forall i, j | 0 <= i < j < |cs| :: |cs[j]| > 0 ==> |cs[i]| == BLOCK_SIZE)
  }

  /** Shaped, told from the first piece on. */
  ghost predicate Tight(cs: seq<seq<byte>>) {
    cs == [] || (
      && |cs[0]| <= BLOCK_SIZE
      && (|cs[0]| < BLOCK_SIZE ==> Join(cs[1..]) == [])
      && Tight(cs[1..]))
  }

  // ---------------------------------------------------------------- flat meaning

  /** Where a transfer at cursor `offset` lands: the cursor is never clamped, the position is. */
  function Position(content: seq<byte>, offset: nat): (p: nat)
    ensures p <= |content| && p <= offset
    ensures p == offset || p == |content|
  {
    Min(offset, |content|)
  }

  /** The bytes of content from p on are replaced by data, extending content if needed. */
  function Overwrite(content: seq<byte>, offset: nat, data: seq<byte>): seq<byte> {
    var p := Position(content, offset);
    content[..p] + data + content[Min(p + |data|, |content|)..]
  }

  /** The bytes from offset on, at most size of them; nothing past the end. */
  function Slice(content: seq<byte>, offset: nat, size: nat): seq<byte> {
    var p := Position(content, offset);
    content[p..Min(p + size, |content|)]
  }

  function Truncate(content: seq<byte>, size: nat): seq<byte> {
    content[..Min(size, |content|)]
  }

  // ---------------------------------------------------------------- loops over pieces

  /** One block after its share of data is copied in at bo. */
  function Patch(c: seq<byte>, bo: nat, data: seq<byte>): seq<byte>
    requires bo <= |c|
  {
    c[..bo] + data + c[Min(bo + |data|, |c|)..]
  }

  /** Patching the used part of a block's memory. */
  lemma PatchPrefix(memory: seq<byte>, used: nat, at: nat, data: seq<byte>)
    requires at <= used <= |memory| && at + |data| <= |memory|
    ensures (memory[..at] + data + memory[at + |data|..])[..Max(at + |data|, used)] == Patch(memory[..used], at, data)
  {
  }

  function WriteChunks(cs: seq<seq<byte>>, offset: nat, data: seq<byte>): seq<seq<byte>>
    requires Tight(cs)
    decreases |data|, |cs|
  {
    if data == [] then cs
    else if cs == [] then
      var w := Min(|data|, BLOCK_SIZE);
      [data[..w]] + WriteChunks([], 0, data[w..])
    else
      var bo := Min(offset, |cs[0]|);
      if bo == BLOCK_SIZE then [cs[0]] + WriteChunks(cs[1..], offset - BLOCK_SIZE, data)
      else
        var w := Min(|data|, BLOCK_SIZE - bo);
        [Patch(cs[0], bo, data[..w])] + WriteChunks(cs[1..], 0, data[w..])
  }

  function ReadChunks(cs: seq<seq<byte>>, offset: nat, size: nat): seq<byte>
    decreases |cs|
  {
    if cs == [] || size == 0 then []
    else
      var bo := Min(offset, BLOCK_SIZE);
      if bo == BLOCK_SIZE then ReadChunks(cs[1..], offset - BLOCK_SIZE, size)
      else
        var n := Min(|cs[0]| - bo, size);
        if n < 0 then [] else cs[0][bo..bo + n] + ReadChunks(cs[1..], 0, size - n)
  }

  /** How the sizing loop of ufs_resize ends: with these blocks kept, or in an underflow of new_size. */
  datatype Resized = Kept(chunks: seq<seq<byte>>) | Wraps

  function ResizeLoop(cs: seq<seq<byte>>, size: nat): Resized
    decreases size, |cs|
  {
    if size == 0 then Kept([])
    else if cs == [] then
      if size < BLOCK_SIZE then Wraps else Keep([], ResizeLoop([], size - BLOCK_SIZE))
    else if size >= BLOCK_SIZE then Keep(cs[0], ResizeLoop(cs[1..], size - BLOCK_SIZE))
    else if size < |cs[0]| then Kept([cs[0][..size]])
    else Keep(cs[0], ResizeLoop(cs[1..], size))
  }

  function Keep(c: seq<byte>, r: Resized): Resized {
    if r.Kept? then Kept([c] + r.chunks) else Wraps
  }

  const SIZE_T := 0x1_0000_0000_0000_0000

  /** new_size after k iterations that each create a block, in size_t arithmetic. */
  function SizeAfter(size: nat, k: nat): (r: nat)
    requires size < SIZE_T
    ensures r < SIZE_T
    ensures r % BLOCK_SIZE == size % BLOCK_SIZE
  {
    if k == 0 then size
    else
      var prev := SizeAfter(size, k - 1);
      if prev < BLOCK_SIZE then prev + SIZE_T - BLOCK_SIZE else prev - BLOCK_SIZE
  }

  // ---------------------------------------------------------------- refinement

  lemma {:induction false} JoinEmpty(cs: seq<seq<byte>>)
    ensures Join(cs) == [] <==> forall i | 0 <= i < |cs| :: |cs[i]| == 0
  {
    if cs != [] {
      JoinEmpty(cs[1..]);
      assert forall i | 1 <= i < |cs| :: cs[i] == cs[1..][i - 1];
    }
  }

  lemma {:induction false} ShapedIsTight(cs: seq<seq<byte>>)
    ensures Shaped(cs) <==> Tight(cs)
  {
    if cs != [] {
      var t := cs[1..];
      ShapedIsTight(t);
      JoinEmpty(t);
      assert forall i | 0 < i < |cs| :: cs[i] == t[i - 1];
      assert forall i | 0 <= i < |t| :: t[i] == cs[i + 1];
    }
  }

  lemma {:induction false} JoinConcat(a: seq<seq<byte>>, b: seq<seq<byte>>)
    ensures Join(a + b) == Join(a) + Join(b)
  {
    if a == [] {
      assert a + b == b;
    } else {
      assert (a + b)[1..] == a[1..] + b;
      JoinConcat(a[1..], b);
    }
  }

  /** A full first piece is skipped by a cursor at or past its end. */
  lemma OverwriteSkips(a: seq<byte>, b: seq<byte>, offset: nat, data: seq<byte>)
    requires |a| <= offset
    ensures Overwrite(a + b, offset, data) == a + Overwrite(b, offset - |a|, data)
    ensures Position(a + b, offset) == |a| + Position(b, offset - |a|)
  {
    var p := Position(b, offset - |a|);
    assert (a + b)[..|a| + p] == a + b[..p];
  }

  /** Data that ends inside the first piece, or that appends to the last non-empty one. */
  lemma OverwriteWithin(a: seq<byte>, b: seq<byte>, offset: nat, data: seq<byte>)
    requires offset + |data| <= |a| || b == []
    ensures Overwrite(a + b, offset, data) == Patch(a, Min(offset, |a|), data) + b
  {
    if b == [] { assert a + b == a; }
  }

  /** Data that runs over the end of the first piece continues at the start of the second. */
  lemma OverwriteAcross(a: seq<byte>, b: seq<byte>, offset: nat, d: seq<byte>, e: seq<byte>)
    requires (offset <= |a| && offset + |d| == |a|) || (b == [] && Min(offset, |a|) + |d| >= |a|)
    ensures Overwrite(a + b, offset, d + e) == Patch(a, Min(offset, |a|), d) + Overwrite(b, 0, e)
  {
    var bo := Min(offset, |a|);
    assert Overwrite(b, 0, e) == e + b[Min(|e|, |b|)..];
    if b == [] {
      assert a + b == a;
    } else {
      assert (a + b)[..bo] == a[..bo];
      assert (a + b)[Min(bo + |d + e|, |a + b|)..] == b[Min(|e|, |b|)..];
    }
  }

  lemma JoinCons(c: seq<byte>, cs: seq<seq<byte>>)
    ensures Join([c] + cs) == c + Join(cs)
  {
    assert ([c] + cs)[1..] == cs;
  }

  lemma OverwriteTrivial(content: seq<byte>, offset: nat, data: seq<byte>)
    ensures Overwrite(content, offset, []) == content
    ensures Overwrite([], offset, data) == data
  {
  }

  lemma {:induction false} WriteContent(cs: seq<seq<byte>>, offset: nat, data: seq<byte>)
    requires Tight(cs)
    ensures Join(WriteChunks(cs, offset, data)) == Overwrite(Join(cs), offset, data)
    decreases |data|, |cs|
  {
    hide Overwrite, Patch, Position;
    OverwriteTrivial(Join(cs), offset, data);
    if data == [] {
    } else if cs == [] {
      var w := Min(|data|, BLOCK_SIZE);
      WriteContent([], 0, data[w..]);
      OverwriteTrivial([], 0, data[w..]);
      JoinCons(data[..w], WriteChunks([], 0, data[w..]));
      assert data[..w] + data[w..] == data;
    } else if Min(offset, |cs[0]|) == BLOCK_SIZE {
      WriteContent(cs[1..], offset - BLOCK_SIZE, data);
      OverwriteSkips(cs[0], Join(cs[1..]), offset, data);
      JoinCons(cs[0], WriteChunks(cs[1..], offset - BLOCK_SIZE, data));
    } else {
      var w := Min(|data|, BLOCK_SIZE - Min(offset, |cs[0]|));
      WriteContent(cs[1..], 0, data[w..]);
      WriteHere(cs, offset, data, WriteChunks(cs[1..], 0, data[w..]));
    }
  }

  /** One iteration that copies data into the first piece. */
  lemma WriteHere(cs: seq<seq<byte>>, offset: nat, data: seq<byte>, next: seq<seq<byte>>)
    requires cs != [] && |cs[0]| <= BLOCK_SIZE && (|cs[0]| < BLOCK_SIZE ==> Join(cs[1..]) == [])
    requires Min(offset, |cs[0]|) < BLOCK_SIZE
    requires var w := Min(|data|, BLOCK_SIZE - Min(offset, |cs[0]|));
      Join(next) == Overwrite(Join(cs[1..]), 0, data[w..])
    ensures var bo := Min(offset, |cs[0]|);
      var w := Min(|data|, BLOCK_SIZE - bo);
      Join([Patch(cs[0], bo, data[..w])] + next) == Overwrite(Join(cs), offset, data)
  {
    var a, rest := cs[0], Join(cs[1..]);
    var bo := Min(offset, |a|);
    var w := Min(|data|, BLOCK_SIZE - bo);
    assert data[..w] + data[w..] == data;
    JoinCons(Patch(a, bo, data[..w]), next);
    if w < |data| {
      OverwriteAcross(a, rest, offset, data[..w], data[w..]);
    } else {
      assert data[w..] == [] && data[..w] == data;
      OverwriteWithin(a, rest, offset, data);
      assert Overwrite(rest, 0, []) == rest;
    }
  }

  lemma {:induction false} WriteShape(cs: seq<seq<byte>>, offset: nat, data: seq<byte>)
    requires Tight(cs)
    ensures Tight(WriteChunks(cs, offset, data))
    decreases |data|, |cs|
  {
    if data == [] {
    } else if cs == [] {
      var w := Min(|data|, BLOCK_SIZE);
      WriteShape([], 0, data[w..]);
    } else if Min(offset, |cs[0]|) == BLOCK_SIZE {
      WriteShape(cs[1..], offset - BLOCK_SIZE, data);
    } else {
      var w := Min(|data|, BLOCK_SIZE - Min(offset, |cs[0]|));
      WriteShape(cs[1..], 0, data[w..]);
    }
  }

  /** The write loop never drops a block, and every block it adds receives data. */
  lemma {:induction false} WriteGrowth(cs: seq<seq<byte>>, offset: nat, data: seq<byte>)
    requires Tight(cs)
    ensures var out := WriteChunks(cs, offset, data);
      |out| >= |cs| && (|out| > |cs| ==> out[|out| - 1] != [])
    decreases |data|, |cs|
  {
    if data == [] {
    } else if cs == [] {
      WriteGrowth([], 0, data[Min(|data|, BLOCK_SIZE)..]);
    } else if Min(offset, |cs[0]|) == BLOCK_SIZE {
      WriteGrowth(cs[1..], offset - BLOCK_SIZE, data);
    } else {
      WriteGrowth(cs[1..], 0, data[Min(|data|, BLOCK_SIZE - Min(offset, |cs[0]|))..]);
    }
  }

  /** A chain that does not end in an empty block is as short as its content allows. */
  lemma {:induction false} TightCount(cs: seq<seq<byte>>)
    requires Tight(cs)
    ensures BlocksFor(|Join(cs)|) <= |cs|
    ensures cs != [] && cs[|cs| - 1] != [] ==> BlocksFor(|Join(cs)|) == |cs|
  {
    JoinBound(cs);
    if |cs| > 1 {
      TightCount(cs[1..]);
      JoinEmpty(cs[1..]);
    }
  }

  lemma {:induction false} JoinBound(cs: seq<seq<byte>>)
    requires Tight(cs)
    ensures |Join(cs)| <= |cs| * BLOCK_SIZE
  {
    if cs != [] { JoinBound(cs[1..]); }
  }

  /** The write loop: content, shape and number of blocks. */
  lemma WriteRefines(cs: seq<seq<byte>>, offset: nat, data: seq<byte>)
    requires Tight(cs)
    ensures Tight(WriteChunks(cs, offset, data))
    ensures Join(WriteChunks(cs, offset, data)) == Overwrite(Join(cs), offset, data)
    ensures |WriteChunks(cs, offset, data)| == Max(|cs|, BlocksFor(|Overwrite(Join(cs), offset, data)|))
  {
    WriteContent(cs, offset, data);
    WriteShape(cs, offset, data);
    WriteGrowth(cs, offset, data);
    TightCount(cs);
    TightCount(WriteChunks(cs, offset, data));
  }

  lemma SliceTrivial(content: seq<byte>, offset: nat, size: nat)
    requires size == 0 || offset >= |content|
    ensures Slice(content, offset, size) == []
  {
  }

  lemma SliceSkips(a: seq<byte>, b: seq<byte>, offset: nat, size: nat)
    requires |a| <= offset
    ensures Slice(a + b, offset, size) == Slice(b, offset - |a|, size)
  {
  }

  lemma SliceAcross(a: seq<byte>, b: seq<byte>, offset: nat, size: nat)
    requires offset <= |a|
    ensures Slice(a + b, offset, size) ==
            a[offset..Min(offset + size, |a|)] + Slice(b, 0, Max(size - (|a| - offset), 0))
  {
  }

  /** The read loop. */
  lemma {:induction false} ReadRefines(cs: seq<seq<byte>>, offset: nat, size: nat)
    requires Tight(cs)
    ensures ReadChunks(cs, offset, size) == Slice(Join(cs), offset, size)
  {
    hide Slice, Position;
    if cs == [] || size == 0 {
      SliceTrivial(Join(cs), offset, size);
    } else if |cs[0]| < BLOCK_SIZE && offset > |cs[0]| {
      ReadPastEnd(cs, offset, size);
    } else if offset >= BLOCK_SIZE {
      ReadRefines(cs[1..], offset - BLOCK_SIZE, size);
      SliceSkips(cs[0], Join(cs[1..]), offset, size);
    } else {
      ReadRefines(cs[1..], 0, size - Min(|cs[0]| - offset, size));
      SliceAcross(cs[0], Join(cs[1..]), offset, size);
    }
  }

  /** A cursor past the end of the file reads nothing, whatever empty blocks follow. */
  lemma {:induction false} ReadPastEnd(cs: seq<seq<byte>>, offset: nat, size: nat)
    requires Tight(cs) && offset >= |Join(cs)|
    ensures ReadChunks(cs, offset, size) == [] && Slice(Join(cs), offset, size) == []
  {
    if cs != [] && size != 0 {
      if offset >= BLOCK_SIZE {
        ReadPastEnd(cs[1..], offset - BLOCK_SIZE, size);
      } else if |cs[0]| >= offset {
        ReadPastEnd(cs[1..], 0, size);
      }
    }
  }

  /** The sizing loop ends exactly for whole blocks and for sizes below the current one. */
  lemma {:induction false} ResizeDefined(cs: seq<seq<byte>>, size: nat)
    requires Tight(cs)
    ensures ResizeLoop(cs, size).Kept? <==> size % BLOCK_SIZE == 0 || size < |Join(cs)|
    decreases size, |cs|
  {
    if size == 0 {
    } else if cs == [] {
      if size >= BLOCK_SIZE { ResizeDefined([], size - BLOCK_SIZE); }
    } else if size >= BLOCK_SIZE {
      ResizeDefined(cs[1..], size - BLOCK_SIZE);
    } else if size >= |cs[0]| {
      ResizeDefined(cs[1..], size);
    }
  }

  /** What is left when it ends: the truncated content, in as many blocks as the size takes. */
  lemma {:induction false} ResizeRefines(cs: seq<seq<byte>>, size: nat)
    requires Tight(cs) && ResizeLoop(cs, size).Kept?
    ensures var out := ResizeLoop(cs, size).chunks;
      && Tight(out)
      && Join(out) == Truncate(Join(cs), size)
      && |out| == BlocksFor(size)
    decreases size, |cs|
  {
    if size == 0 {
    } else if cs == [] {
      ResizeRefines([], size - BLOCK_SIZE);
      KeepOne([], [], size - BLOCK_SIZE, ResizeLoop([], size - BLOCK_SIZE).chunks);
    } else if size >= BLOCK_SIZE {
      ResizeRefines(cs[1..], size - BLOCK_SIZE);
      KeepOne(cs[0], cs[1..], size - BLOCK_SIZE, ResizeLoop(cs[1..], size - BLOCK_SIZE).chunks);
    } else if size < |cs[0]| {
      JoinCons(cs[0][..size], []);
    } else {
      ResizeDefined(cs[1..], size);
    }
  }

  lemma KeepOne(c: seq<byte>, cs: seq<seq<byte>>, size: nat, kept: seq<seq<byte>>)
    requires |c| <= BLOCK_SIZE && (|c| < BLOCK_SIZE ==> Join(cs) == [])
    requires Tight(kept) && Join(kept) == Truncate(Join(cs), size) && |kept| == BlocksFor(size)
    ensures var out := [c] + kept;
      && Tight(out)
      && Join(out) == Truncate(c + Join(cs), size + BLOCK_SIZE)
      && |out| == BlocksFor(size + BLOCK_SIZE)
  {
    JoinCons(c, kept);
    assert ([c] + kept)[1..] == kept;
  }

  /** Once new_size underflows, no number of further iterations brings it to zero. */
  lemma WrapNeverEnds(size: nat, k: nat)
    requires size < SIZE_T && size % BLOCK_SIZE != 0
    ensures SizeAfter(size, k) != 0
  {
    assert SizeAfter(size, k) % BLOCK_SIZE != 0;
  }

  // ---------------------------------------------------------------- one iteration of the write loop

  /** With the cursor on piece i and d still to write, the loop is on its way to target. */
  ghost predicate Writing(cs: seq<seq<byte>>, i: nat, offset: nat, d: seq<byte>, target: seq<seq<byte>>) {
    i <= |cs| && Tight(cs[i..]) && cs[..i] + WriteChunks(cs[i..], offset, d) == target
  }

  lemma WritingStarts(cs: seq<seq<byte>>, offset: nat, d: seq<byte>)
    requires Tight(cs)
    ensures Writing(cs, 0, offset, d, WriteChunks(cs, offset, d))
  {
    assert cs[0..] == cs;
  }

  lemma WritingEnds(cs: seq<seq<byte>>, i: nat, offset: nat, target: seq<seq<byte>>)
    requires Writing(cs, i, offset, [], target)
    ensures cs == target
  {
    assert cs == cs[..i] + cs[i..];
  }

  lemma WritingCreate(cs: seq<seq<byte>>, offset: nat, d: seq<byte>, target: seq<seq<byte>>)
    requires Writing(cs, |cs|, offset, d, target) && d != []
    ensures Writing(cs + [[]], |cs|, 0, d, target)
  {
    var w := Min(|d|, BLOCK_SIZE);
    assert cs[|cs|..] == [] && (cs + [[]])[|cs|..] == [[]] && (cs + [[]])[..|cs|] == cs[..|cs|];
    var one: seq<seq<byte>> := [[]];
    assert one[1..] == [] && Tight(one);
    assert WriteChunks(one, 0, d) == [Patch([], 0, d[..w])] + WriteChunks([], 0, d[w..]);
    assert Patch([], 0, d[..w]) == d[..w];
  }

  lemma WritingSkip(cs: seq<seq<byte>>, i: nat, offset: nat, d: seq<byte>, target: seq<seq<byte>>)
    requires Writing(cs, i, offset, d, target) && i < |cs| && d != []
    requires Min(offset, |cs[i]|) == BLOCK_SIZE
    ensures Writing(cs, i + 1, offset - BLOCK_SIZE, d, target)
  {
    var t := cs[i..];
    assert t[1..] == cs[i + 1..] && t[0] == cs[i];
    assert cs[..i + 1] == cs[..i] + [cs[i]];
  }

  lemma WritingFill(cs: seq<seq<byte>>, i: nat, offset: nat, d: seq<byte>, w: nat, target: seq<seq<byte>>)
    requires Writing(cs, i, offset, d, target) && i < |cs| && d != []
    requires Min(offset, |cs[i]|) < BLOCK_SIZE && w == Min(|d|, BLOCK_SIZE - Min(offset, |cs[i]|))
    ensures Writing(cs[i := Patch(cs[i], Min(offset, |cs[i]|), d[..w])], i + 1, 0, d[w..], target)
  {
    var t, c := cs[i..], Patch(cs[i], Min(offset, |cs[i]|), d[..w]);
    var next := cs[i := c];
    assert t[1..] == cs[i + 1..] == next[i + 1..] && t[0] == cs[i];
    assert next[..i + 1] == cs[..i] + [c];
  }

  lemma WriteNonEmpty(cs: seq<seq<byte>>, offset: nat, data: seq<byte>)
    requires Tight(cs)
    ensures WriteChunks(cs, offset, data) == [] <==> cs == [] && data == []
  {
  }

  // ---------------------------------------------------------------- one iteration of the read loop

  /** Before piece i, with got already read and size still wanted, the loop is on its way to target. */
  ghost predicate Reading(cs: seq<seq<byte>>, i: nat, offset: nat, size: nat, got: seq<byte>, target: seq<byte>) {
    i <= |cs| && got + ReadChunks(cs[i..], offset, size) == target
  }

  lemma ReadingStarts(cs: seq<seq<byte>>, offset: nat, size: nat)
    ensures Reading(cs, 0, offset, size, [], ReadChunks(cs, offset, size))
  {
    assert cs[0..] == cs;
  }

  lemma ReadingSkip(cs: seq<seq<byte>>, i: nat, offset: nat, size: nat, got: seq<byte>, target: seq<byte>)
    requires Reading(cs, i, offset, size, got, target) && i < |cs| && size > 0 && offset >= BLOCK_SIZE
    ensures Reading(cs, i + 1, offset - BLOCK_SIZE, size, got, target)
  {
    assert cs[i..][1..] == cs[i + 1..];
  }

  lemma ReadingTake(cs: seq<seq<byte>>, i: nat, offset: nat, size: nat, got: seq<byte>, target: seq<byte>, n: nat)
    requires Reading(cs, i, offset, size, got, target) && i < |cs| && size > 0 && offset < BLOCK_SIZE
    requires n == Min(|cs[i]| - offset, size)
    ensures Reading(cs, i + 1, 0, size - n, got + cs[i][offset..offset + n], target)
  {
    assert cs[i..][1..] == cs[i + 1..];
  }

  lemma ReadingEnds(cs: seq<seq<byte>>, i: nat, offset: nat, size: nat, got: seq<byte>, target: seq<byte>)
    requires Reading(cs, i, offset, size, got, target)
    requires i == |cs| || size == 0 || (offset < BLOCK_SIZE && |cs[i]| < offset)
    ensures got == target
  {
  }

  // ---------------------------------------------------------------- one iteration of the sizing loop

  function Prepend(pre: seq<seq<byte>>, r: Resized): Resized {
    if r.Kept? then Kept(pre + r.chunks) else Wraps
  }

  /** With the cursor on piece i and size still to account for, the loop is on its way to target. */
  ghost predicate Resizing(cs: seq<seq<byte>>, i: nat, size: nat, target: Resized) {
    i <= |cs| && Prepend(cs[..i], ResizeLoop(cs[i..], size)) == target
  }

  lemma ResizingStarts(cs: seq<seq<byte>>, size: nat)
    ensures Resizing(cs, 0, size, ResizeLoop(cs, size))
  {
    assert cs[0..] == cs;
  }

  lemma ResizingCreate(cs: seq<seq<byte>>, size: nat, target: Resized)
    requires Resizing(cs, |cs|, size, target) && size > 0
    ensures size < BLOCK_SIZE ==> target == Wraps
    ensures size >= BLOCK_SIZE ==> Resizing(cs + [[]], |cs| + 1, size - BLOCK_SIZE, target)
  {
    var out := cs + [[]];
    assert cs[|cs|..] == [] && out[|cs| + 1..] == [] && out[..|cs| + 1] == cs[..|cs|] + [[]];
    if size >= BLOCK_SIZE { PrependKeep(cs[..|cs|], [], ResizeLoop([], size - BLOCK_SIZE)); }
  }

  lemma PrependKeep(pre: seq<seq<byte>>, c: seq<byte>, r: Resized)
    ensures Prepend(pre, Keep(c, r)) == Prepend(pre + [c], r)
  {
    if r.Kept? { assert pre + ([c] + r.chunks) == (pre + [c]) + r.chunks; }
  }

  lemma ResizingPass(cs: seq<seq<byte>>, i: nat, size: nat, target: Resized)
    requires Resizing(cs, i, size, target) && i < |cs| && size > 0
    requires size >= BLOCK_SIZE || size >= |cs[i]|
    ensures Resizing(cs, i + 1, if size >= BLOCK_SIZE then size - BLOCK_SIZE else size, target)
  {
    assert cs[i..][1..] == cs[i + 1..] && cs[..i + 1] == cs[..i] + [cs[i]];
    PrependKeep(cs[..i], cs[i], ResizeLoop(cs[i + 1..], if size >= BLOCK_SIZE then size - BLOCK_SIZE else size));
  }

  lemma ResizingShrink(cs: seq<seq<byte>>, i: nat, size: nat, target: Resized)
    requires Resizing(cs, i, size, target) && i < |cs|
    requires 0 < size < BLOCK_SIZE && size < |cs[i]|
    ensures Resizing(cs[i := cs[i][..size]], i + 1, 0, target)
  {
    var out := cs[i := cs[i][..size]];
    assert out[..i + 1] == cs[..i] + [cs[i][..size]];
  }

  lemma ResizingEnds(cs: seq<seq<byte>>, i: nat, target: Resized)
    requires Resizing(cs, i, 0, target)
    ensures target == Kept(cs[..i])
  {
  }

  lemma JoinPrefix(cs: seq<seq<byte>>, i: nat)
    requires i < |cs|
    ensures |Join(cs[..i + 1])| == |Join(cs[..i])| + |cs[i]|
  {
    assert cs[..i + 1] == cs[..i] + [cs[i]];
    JoinConcat(cs[..i], [cs[i]]);
    JoinCons(cs[i], []);
  }
}
