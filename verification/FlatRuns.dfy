/**
 * What the file system promises over whole runs, proved on its flat meaning.
 */
module FlatRuns {
  import opened Wrappers

  import opened Chunks
  import opened FlatFs

  // ---------------------------------------------------------------- isolation

  /** The operation goes through a descriptor of file id and may change its bytes. */
  predicate Touches(s: Fs, op: Op, id: nat) {
    (op.Write? || op.Resize?) && IsValidFd(s, op.fd) && s.table[op.fd].desc.file == id
  }

  /** The operation addresses descriptor k. */
  predicate Addresses(op: Op, k: nat) {
    (op.Write? || op.Read? || op.Close?) && op.fd == k
  }

  predicate SameBytes(a: Node, b: Node) {
    a.content == b.content && a.blocks == b.blocks && a.budget == b.budget
  }

  /** Freed files stay freed, and a live one changes only through its own descriptors. */
  lemma StepIsolates(s: Fs, op: Op, id: nat)
    requires Inv(s) && id < |s.files| && !Touches(s, op, id)
    ensures var t := Step(s, op).0;
      && id < |t.files| && t.files[id].name == s.files[id].name
      && (t.files[id].alive ==> s.files[id].alive && SameBytes(t.files[id], s.files[id]))
  {
    hide Tally, Overwrite, Truncate, Slice, BlocksFor, FirstFree, Grown, Without;
    match op
    case Close(fd) => if IsValidFd(s, fd) { NoDangling(s, fd); }
    case Open(name, flags) =>
      var hit := Lookup(s.files, s.names, name);
      if hit.Some? { ListedIsAlive(s, hit.value); }
    case Delete(name) =>
      var hit := Lookup(s.files, s.names, name);
      if hit.Some? { ListedIsAlive(s, hit.value); }
    case _ =>
  }

  lemma ListedIsAlive(s: Fs, id: nat)
    requires Inv(s) && id in s.names
    ensures id < |s.files| && s.files[id].alive
  {
    assert NodeOk(s.files[id], Refs(s.table, id));
  }

  /** No operation of the run may change the bytes of file id. */
  predicate Untouched(s: Fs, ops: seq<Op>, id: nat)
    requires Inv(s)
    decreases |ops|
  {
    ops == [] || (!Touches(s, ops[0], id) && Untouched(Step(s, ops[0]).0, ops[1..], id))
  }

  /**
   * Over any run, a file that is alive at the end and was not written or resized through its own
   * descriptors has the bytes it started with: unlinking it and creating a namesake changes nothing.
   */
  lemma {:induction false} RunIsolates(s: Fs, ops: seq<Op>, id: nat)
    requires Inv(s) && id < |s.files| && Untouched(s, ops, id)
    ensures var t := Run(s, ops).0;
      && id < |t.files| && t.files[id].name == s.files[id].name
      && (t.files[id].alive ==> s.files[id].alive && SameBytes(t.files[id], s.files[id]))
    decreases |ops|
  {
    if ops != [] {
      StepIsolates(s, ops[0], id);
      if !Step(s, ops[0]).1.Broken? { RunIsolates(Step(s, ops[0]).0, ops[1..], id); }
    }
  }

  /** An open descriptor is changed only by operations that name it, table growth included. */
  lemma StepKeepsDescriptors(s: Fs, op: Op, k: nat)
    requires Inv(s) && IsValidFd(s, k) && !Addresses(op, k)
    ensures IsValidFd(Step(s, op).0, k) && Step(s, op).0.table[k] == s.table[k]
  {
    SlotExists(s.table, s.count);
  }

  // ---------------------------------------------------------------- opening and unlinking

  /** Opening takes the lowest free slot and fails exactly for an unlisted name without UFS_CREATE. */
  lemma OpenTakesLowest(s: Fs, name: string, flags: bv32)
    requires Inv(s)
    ensures var (t, reply) := Step(s, Open(name, flags));
      if reply.Ok? then
        && 0 <= reply.value && !IsValidFd(s, reply.value)
        && (forall j | 0 <= j < reply.value :: IsValidFd(s, j))
        && IsValidFd(t, reply.value)
        && var d := t.table[reply.value].desc;
           && d == Desc(d.file, 0, CanRead(flags), CanWrite(flags))
           && d.file in t.names && t.files[d.file].name == name
      else
        && reply == Fails(NoFile) && !Permitted(flags, UFS_CREATE)
        && forall id | id in s.names :: s.files[id].name != name
    ensures Step(s, Open(name, flags)).1.Ok?
      <==> Permitted(flags, UFS_CREATE) || exists id :: id in s.names && s.files[id].name == name
  {
    SlotExists(s.table, s.count);
    FullTable(s.table);
    var hit := Lookup(s.files, s.names, name);
    if hit.None? {
      forall id | id in s.names ensures s.files[id].name != name {
        var i :| 0 <= i < |s.names| && s.names[i] == id;
      }
    }
  }

  /** After an unlink, creating the same name again makes another, empty file. */
  lemma RecreateIsFresh(s: Fs, name: string, flags: bv32)
    requires Inv(s) && Permitted(flags, UFS_CREATE)
    requires Step(s, Delete(name)).1.Ok?
    ensures var s1 := Step(s, Delete(name)).0;
      var (s2, reply) := Step(s1, Open(name, flags));
      && reply.Ok? && IsValidFd(s2, reply.value)
      && s2.table[reply.value].desc.file == |s.files|
      && s2.files[|s.files|].content == []
  {
    hide Tally;
    var id := Lookup(s.files, s.names, name).value;
    var s1 := Step(s, Delete(name)).0;
    WithoutOne(s.names, id);
    forall i | 0 <= i < |s1.names| ensures s1.files[s1.names[i]].name != name {
      assert s1.names[i] in s1.names;
      DistinctNames(s.files, s.names, s1.names[i], id);
    }
    SlotExists(s1.table, s1.count);
  }

  // ---------------------------------------------------------------- splitting transfers

  function WriteOps(fd: int, pieces: seq<seq<byte>>): (ops: seq<Op>)
    ensures |ops| == |pieces|
  {
    seq(|pieces|, i requires 0 <= i < |pieces| => Write(fd, pieces[i]))
  }

  predicate Writer(s: Fs, fd: int) { IsValidFd(s, fd) && s.table[fd].desc.canWrite }

  predicate Reader(s: Fs, fd: int) { IsValidFd(s, fd) && s.table[fd].desc.canRead }

  function FileOf(s: Fs, fd: int): Node
    requires Inv(s) && IsValidFd(s, fd)
  {
    s.files[s.table[fd].desc.file]
  }

  lemma OverwriteTwice(c: seq<byte>, offset: nat, a: seq<byte>, b: seq<byte>)
    ensures Overwrite(Overwrite(c, offset, a), offset + |a|, b) == Overwrite(c, offset, a + b)
    ensures |Overwrite(c, offset, a)| <= |Overwrite(c, offset, a + b)|
  {
    var p := Position(c, offset);
    var c1 := Overwrite(c, offset, a);
    assert Position(c1, offset + |a|) == p + |a|;
    assert c1[..p + |a|] == c[..p] + a;
    assert c1[Min(p + |a| + |b|, |c1|)..] == c[Min(p + |a + b|, |c|)..];
  }

  lemma BlocksMonotone(m: nat, n: nat)
    requires m <= n
    ensures BlocksFor(m) <= BlocksFor(n)
  {
  }

  lemma WriteTwice(s: Fs, fd: int, a: seq<byte>, b: seq<byte>)
    requires Inv(s) && Writer(s, fd) && a != [] && b != []
    requires |a| + |b| <= FileOf(s, fd).budget
    ensures Step(s, Write(fd, a)).1 == Ok(|a|)
    ensures Writer(Step(s, Write(fd, a)).0, fd)
    ensures FileOf(Step(s, Write(fd, a)).0, fd).budget == FileOf(s, fd).budget - |a|
    ensures Step(Step(s, Write(fd, a)).0, Write(fd, b)) == (Step(s, Write(fd, a + b)).0, Ok(|b|))
  {
    hide Tally, Overwrite, BlocksFor;
    var d := s.table[fd].desc;
    var c := s.files[d.file].content;
    OverwriteTwice(c, d.offset, a, b);
    BlocksMonotone(|Overwrite(c, d.offset, a)|, |Overwrite(c, d.offset, a + b)|);
    var s1 := Step(s, Write(fd, a)).0;
    var s2 := Step(s1, Write(fd, b)).0;
    var t := Step(s, Write(fd, a + b)).0;
    assert s2.files == t.files;
    assert s2.table == t.table;
  }

  /** A buffer written in any non-empty pieces leaves the state that one write of it leaves. */
  lemma {:induction false} WriteSplit(s: Fs, fd: int, pieces: seq<seq<byte>>)
    requires Inv(s) && Writer(s, fd) && pieces != []
    requires forall i | 0 <= i < |pieces| :: pieces[i] != []
    requires |Join(pieces)| <= FileOf(s, fd).budget
    ensures Run(s, WriteOps(fd, pieces)).0 == Step(s, Write(fd, Join(pieces))).0
    ensures forall r | r in Run(s, WriteOps(fd, pieces)).1 :: r.Ok?
    decreases |pieces|
  {
    var a, rest := pieces[0], pieces[1..];
    var s1 := Step(s, Write(fd, a)).0;
    assert WriteOps(fd, pieces)[1..] == WriteOps(fd, rest);
    if rest == [] {
      assert Join(pieces) == a + Join(rest) == a;
    } else {
      assert forall i | 0 <= i < |rest| :: rest[i] == pieces[i + 1];
      assert Join(rest) == rest[0] + Join(rest[1..]);
      WriteTwice(s, fd, a, Join(rest));
      WriteSplit(s1, fd, rest);
    }
  }

  function ReadOps(fd: int, sizes: seq<nat>): (ops: seq<Op>)
    ensures |ops| == |sizes|
  {
    seq(|sizes|, i requires 0 <= i < |sizes| => Read(fd, sizes[i]))
  }

  function Sum(sizes: seq<nat>): nat { if sizes == [] then 0 else sizes[0] + Sum(sizes[1..]) }

  /** All bytes returned by a run of reads. */
  function Gather(replies: seq<Reply>): seq<byte> {
    if replies == [] then [] else (if replies[0].Bytes? then replies[0].data else []) + Gather(replies[1..])
  }

  lemma SliceTwice(c: seq<byte>, offset: nat, m: nat, n: nat)
    ensures var a := Slice(c, offset, m);
      a + Slice(c, offset + |a|, n) == Slice(c, offset, m + n)
  {
  }

  lemma ReadTwice(s: Fs, fd: int, m: nat, n: nat)
    requires Inv(s) && Reader(s, fd)
    ensures var (s1, a) := Step(s, Read(fd, m));
      && a.Bytes? && Reader(s1, fd)
      && var (s2, b) := Step(s1, Read(fd, n));
         b.Bytes? && Step(s, Read(fd, m + n)) == (s2, Bytes(a.data + b.data))
  {
    var d := s.table[fd].desc;
    hide Tally, Slice;
    SliceTwice(s.files[d.file].content, d.offset, m, n);
    var s1 := Step(s, Read(fd, m)).0;
    var s2 := Step(s1, Read(fd, n)).0;
    assert s2.table == Step(s, Read(fd, m + n)).0.table;
  }

  lemma ReadNothing(s: Fs, fd: int)
    requires Inv(s) && Reader(s, fd)
    ensures Step(s, Read(fd, 0)) == (s, Bytes([]))
  {
    var d := s.table[fd].desc;
    assert Slice(s.files[d.file].content, d.offset, 0) == [];
    assert s.table[fd := MoveTo(d, d.offset)] == s.table;
  }

  /** Reads split the same way, whatever the sizes. */
  lemma {:induction false} ReadSplit(s: Fs, fd: int, sizes: seq<nat>)
    requires Inv(s) && Reader(s, fd)
    ensures var (t, replies) := Run(s, ReadOps(fd, sizes));
      Step(s, Read(fd, Sum(sizes))) == (t, Bytes(Gather(replies)))
    decreases |sizes|
  {
    hide Tally, Slice, Inv, Step;
    if sizes == [] {
      ReadNothing(s, fd);
      assert ReadOps(fd, sizes) == [];
    } else {
      var rest := sizes[1..];
      assert ReadOps(fd, sizes)[1..] == ReadOps(fd, rest);
      ReadTwice(s, fd, sizes[0], Sum(rest));
      ReadSplit(Step(s, Read(fd, sizes[0])).0, fd, rest);
    }
  }

  /** What was written can be read back through any other descriptor standing where the write landed. */
  lemma ReadBack(s: Fs, fd: int, other: int, data: seq<byte>)
    requires Inv(s) && Writer(s, fd) && Reader(s, other) && fd != other
    requires Step(s, Write(fd, data)).1.Ok?
    requires s.table[other].desc.file == s.table[fd].desc.file
    requires s.table[other].desc.offset == Position(FileOf(s, fd).content, s.table[fd].desc.offset)
    ensures Step(Step(s, Write(fd, data)).0, Read(other, |data|)).1 == Bytes(data)
  {
  }

  // ---------------------------------------------------------------- the budget

  /** The number of bytes the run's accepted writes put through descriptors of file id. */
  function Accepted(s: Fs, ops: seq<Op>, id: nat): nat
    requires Inv(s)
    decreases |ops|
  {
    if ops == [] || Step(s, ops[0]).1.Broken? then 0 else
    var (s1, reply) := Step(s, ops[0]);
    (if ops[0].Write? && Touches(s, ops[0], id) && reply.Ok? then |ops[0].data| else 0) + Accepted(s1, ops[1..], id)
  }

  /** No operation of the run resizes file id. */
  predicate Unresized(s: Fs, ops: seq<Op>, id: nat)
    requires Inv(s)
    decreases |ops|
  {
    ops == [] || (!(ops[0].Resize? && Touches(s, ops[0], id)) && Unresized(Step(s, ops[0]).0, ops[1..], id))
  }

  lemma StepCharges(s: Fs, op: Op, id: nat)
    requires Inv(s) && id < |s.files| && !(op.Resize? && Touches(s, op, id))
    ensures var (t, reply) := Step(s, op);
      && id < |t.files|
      && (t.files[id].alive ==>
            && s.files[id].alive
            && s.files[id].budget == t.files[id].budget + Accepted(s, [op], id))
  {
    if op.Write? && Touches(s, op, id) {
      NoDangling(s, op.fd);
    } else {
      StepIsolates(s, op, id);
    }
  }

  /** Until it is resized, a file is charged for every byte written to it, overwritten ones included. */
  lemma {:induction false} RunCharges(s: Fs, ops: seq<Op>, id: nat)
    requires Inv(s) && id < |s.files| && Unresized(s, ops, id)
    ensures var t := Run(s, ops).0;
      && id < |t.files|
      && (t.files[id].alive ==>
            && s.files[id].alive
            && s.files[id].budget == t.files[id].budget + Accepted(s, ops, id))
    decreases |ops|
  {
    if ops != [] {
      StepCharges(s, ops[0], id);
      if !Step(s, ops[0]).1.Broken? {
        RunCharges(Step(s, ops[0]).0, ops[1..], id);
        assert Accepted(s, [ops[0]], id) + Accepted(Step(s, ops[0]).0, ops[1..], id) == Accepted(s, ops, id);
      }
    }
  }

  /** The number of bytes the file would have. */
  function LengthAfter(s: Fs, fd: int, data: seq<byte>): nat
    requires Inv(s) && IsValidFd(s, fd)
  {
    |Overwrite(FileOf(s, fd).content, s.table[fd].desc.offset, data)|
  }

  /** A write that would make the file too long is always refused, so no file ever is. */
  lemma TooLongIsRefused(s: Fs, fd: int, data: seq<byte>)
    requires Inv(s) && Writer(s, fd) && LengthAfter(s, fd, data) > MAX_FILE_SIZE
    ensures Step(s, Write(fd, data)).1 == Fails(NoMem)
  {
    assert NodeOk(FileOf(s, fd), Refs(s.table, s.table[fd].desc.file));
  }

  /**
   * The converse, that only such writes are refused, holds exactly for a descriptor standing at the
   * end of a file none of whose bytes was charged twice.
   */
  lemma RefusalExact(s: Fs, fd: int)
    requires Inv(s) && Writer(s, fd)
    ensures (forall data :: Step(s, Write(fd, data)).1 == Fails(NoMem) ==> LengthAfter(s, fd, data) > MAX_FILE_SIZE)
            <==> FileOf(s, fd).budget == MAX_FILE_SIZE - Position(FileOf(s, fd).content, s.table[fd].desc.offset)
  {
    var node := FileOf(s, fd);
    assert NodeOk(node, Refs(s.table, s.table[fd].desc.file));
    var data: seq<byte> := seq(node.budget + 1, _ => 0);
    assert Step(s, Write(fd, data)).1 == Fails(NoMem);
  }

  // ---------------------------------------------------------------- descriptors behind a shrunk file

  /** A descriptor at or past the end appends, over any run of its own writes. */
  lemma AppendsPastEnd(s: Fs, fd: int, pieces: seq<seq<byte>>)
    requires Inv(s) && Writer(s, fd) && pieces != []
    requires forall i | 0 <= i < |pieces| :: pieces[i] != []
    requires |Join(pieces)| <= FileOf(s, fd).budget
    requires s.table[fd].desc.offset >= |FileOf(s, fd).content|
    ensures var t := Run(s, WriteOps(fd, pieces)).0;
      && IsValidFd(t, fd)
      && FileOf(t, fd).content == FileOf(s, fd).content + Join(pieces)
      && t.table[fd].desc.offset >= |FileOf(t, fd).content|
  {
    WriteSplit(s, fd, pieces);
    assert Join(pieces) == pieces[0] + Join(pieces[1..]);
    AppendsOnce(s, fd, Join(pieces));
  }

  lemma AppendsOnce(s: Fs, fd: int, data: seq<byte>)
    requires Inv(s) && Writer(s, fd) && data != [] && |data| <= FileOf(s, fd).budget
    requires s.table[fd].desc.offset >= |FileOf(s, fd).content|
    ensures var t := Step(s, Write(fd, data)).0;
      && IsValidFd(t, fd)
      && FileOf(t, fd).content == FileOf(s, fd).content + data
      && t.table[fd].desc.offset >= |FileOf(t, fd).content|
  {
    hide Tally, BlocksFor;
  }

  /** Over any run, growth of the table included, an open descriptor changes only by calls that name it. */
  lemma {:induction false} RunKeepsDescriptor(s: Fs, ops: seq<Op>, k: nat)
    requires Inv(s) && IsValidFd(s, k)
    requires forall i | 0 <= i < |ops| :: !Addresses(ops[i], k)
    ensures IsValidFd(Run(s, ops).0, k) && Run(s, ops).0.table[k] == s.table[k]
    decreases |ops|
  {
    if ops != [] {
      StepKeepsDescriptors(s, ops[0], k);
      assert forall i | 0 <= i < |ops| - 1 :: ops[1..][i] == ops[i + 1];
      if !Step(s, ops[0]).1.Broken? { RunKeepsDescriptor(Step(s, ops[0]).0, ops[1..], k); }
    }
  }
}
