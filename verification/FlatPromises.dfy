/**
 * Where userfs.c does not do what userfs.h says: for each promise the exact condition under which it is kept,
 * and a run from the empty file system that breaks it.
 */
module FlatPromises {
  import opened Wrappers

  import opened Chunks
  import opened FlatFs
  import opened FlatRuns

  lemma EmptyInv()
    ensures Inv(EMPTY)
  {
  }

  // ---------------------------------------------------------------- descriptors behind a shrunk file

  /** Every accepted write of the run to file id ends at or before byte number size. */
  ghost predicate WritesWithin(s: Fs, ops: seq<Op>, id: nat, size: nat)
    requires Inv(s) && id < |s.files|
    decreases |ops|
  {
    ops == [] || (
      var (t, reply) := Step(s, ops[0]);
      FilesStay(s, ops[0], id);
      && (ops[0].Write? && Touches(s, ops[0], id) && reply.Ok? ==>
            Position(s.files[id].content, s.table[ops[0].fd].desc.offset) + |ops[0].data| <= size)
      && (reply.Broken? || WritesWithin(t, ops[1..], id, size)))
  }

  lemma FilesStay(s: Fs, op: Op, id: nat)
    requires Inv(s) && id < |s.files|
    ensures id < |Step(s, op).0.files|
  {
  }

  /** One call, not a resize of the file, never shortens a live file, and lengthens it by writing past its end only. */
  lemma StepGrows(s: Fs, op: Op, id: nat)
    requires Inv(s) && id < |s.files| && !(op.Resize? && Touches(s, op, id))
    ensures var (t, reply) := Step(s, op);
      id < |t.files| && (t.files[id].alive ==>
        |t.files[id].content|
          == if op.Write? && Touches(s, op, id) && reply.Ok?
             then Max(|s.files[id].content|, Position(s.files[id].content, s.table[op.fd].desc.offset) + |op.data|)
             else |s.files[id].content|)
  {
    if !Touches(s, op, id) { StepIsolates(s, op, id); }
  }

  /** Over a run without a resize of the file, it keeps its length exactly if no write ends past that length. */
  lemma {:induction false} RunGrows(s: Fs, ops: seq<Op>, k: nat)
    requires Inv(s) && IsValidFd(s, k) && Unresized(s, ops, s.table[k].desc.file)
    requires forall i | 0 <= i < |ops| :: !Addresses(ops[i], k)
    ensures var (id, t) := (s.table[k].desc.file, Run(s, ops).0);
      && id < |s.files| && id < |t.files| && IsValidFd(t, k) && t.table[k] == s.table[k]
      && |t.files[id].content| >= |s.files[id].content|
      && forall size: nat | size >= |s.files[id].content| ::
           WritesWithin(s, ops, id, size) <==> |t.files[id].content| <= size
    decreases |ops|
  {
    var id := s.table[k].desc.file;
    NoDangling(s, k);
    if ops != [] {
      hide Tally, Overwrite;
      var (s1, reply) := Step(s, ops[0]);
      StepKeepsDescriptors(s, ops[0], k);
      NoDangling(s1, k);
      StepGrows(s, ops[0], id);
      assert forall i | 0 <= i < |ops| - 1 :: ops[1..][i] == ops[i + 1];
      if !reply.Broken? { RunGrows(s1, ops[1..], k); }
    }
  }

  /**
   * A shrink leaves the descriptors behind the new end where they are. Such a descriptor proceeds from the new end
   * after a run of other calls exactly if no write of the run ended past it.
   */
  lemma ShrunkResumes(s: Fs, fd: int, size: nat, k: nat, ops: seq<Op>)
    requires Inv(s) && IsValidFd(s, fd) && size <= |FileOf(s, fd).content| && Step(s, Resize(fd, size)).1.Ok?
    requires IsValidFd(s, k) && s.table[k].desc.file == s.table[fd].desc.file && s.table[k].desc.offset > size
    requires Unresized(Step(s, Resize(fd, size)).0, ops, s.table[k].desc.file)
    requires forall i | 0 <= i < |ops| :: !Addresses(ops[i], k)
    ensures var s1 := Step(s, Resize(fd, size)).0;
      var (id, t) := (s.table[k].desc.file, Run(s1, ops).0);
      && id < |s1.files| && IsValidFd(t, k)
      && (Position(FileOf(t, k).content, t.table[k].desc.offset) == size <==> WritesWithin(s1, ops, id, size))
  {
    hide Tally;
    var s1 := Step(s, Resize(fd, size)).0;
    assert s1.table == s.table && |FileOf(s1, k).content| == size;
    RunGrows(s1, ops, k);
  }

  // ---------------------------------------------------------------- runs from the empty file system

  lemma RunLast(s: Fs, op: Op)
    requires Inv(s)
    ensures Run(s, [op]) == (Step(s, op).0, [Step(s, op).1])
  {
    assert [op][1..] == [] && [Step(s, op).1] + [] == [Step(s, op).1];
    assert Run(Step(s, op).0, []) == (Step(s, op).0, []);
  }

  /** One listed file with bytes content, and the given descriptors of it in the first slots. */
  ghost function OneFile(content: seq<byte>, blocks: nat, budget: int, offsets: seq<nat>): Fs
    requires 0 < |offsets| <= 2
  {
    Fs([Node("f", content, blocks, budget, |offsets|, true, true)], [0], Slots(offsets), |offsets|)
  }

  ghost function Slots(offsets: seq<nat>): (t: seq<Slot>)
    requires 0 < |offsets| <= 2
    ensures |t| == 10
  {
    var t := Frees(10)[0 := Used(Desc(0, offsets[0], true, true))];
    if |offsets| == 1 then t else t[1 := Used(Desc(0, offsets[1], true, true))]
  }

  lemma AllowsAll()
    ensures CanRead(UFS_CREATE) && CanWrite(UFS_CREATE) && CanRead(0) && CanWrite(0)
    ensures Permitted(UFS_CREATE, UFS_CREATE)
  {
  }

  lemma OpenFirst()
    ensures Inv(EMPTY) && Step(EMPTY, Open("f", UFS_CREATE)) == (OneFile([], 0, MAX_FILE_SIZE, [0]), Ok(0))
  {
    AllowsAll();
    EmptyInv();
    hide CanRead, CanWrite, Permitted;
    var (t, reply) := Step(EMPTY, Open("f", UFS_CREATE));
    var one := OneFile([], 0, MAX_FILE_SIZE, [0]);
    assert FirstFree(Frees(10)) == 0 && t.table == one.table;
    assert t.files == one.files && t.names == one.names;
  }

  lemma OpenSecond(content: seq<byte>, blocks: nat, budget: int, offset: nat)
    requires Inv(OneFile(content, blocks, budget, [offset]))
    ensures Step(OneFile(content, blocks, budget, [offset]), Open("f", 0))
      == (OneFile(content, blocks, budget, [offset, 0]), Ok(1))
  {
    AllowsAll();
    hide CanRead, CanWrite, Permitted;
    var s := OneFile(content, blocks, budget, [offset]);
    var (t, two) := (Step(s, Open("f", 0)).0, OneFile(content, blocks, budget, [offset, 0]));
    assert s.table[1..][0].Free? && FirstFree(s.table) == 1;
    assert Grown(s.table, 1) == s.table && Lookup(s.files, s.names, "f") == Some(0);
    assert t.table == two.table && t.files == two.files && t.names == two.names;
  }

  lemma WriteOnce(s: Fs, content: seq<byte>, blocks: nat, budget: int, offsets: seq<nat>, fd: nat, data: seq<byte>)
    requires 0 < |offsets| <= 2 && fd < |offsets| && s == OneFile(content, blocks, budget, offsets) && Inv(s)
    requires data != []
    ensures Step(s, Write(fd, data))
      == if |data| > budget then (s, Fails(NoMem)) else
           var c := Overwrite(content, offsets[fd], data);
           (OneFile(c, Max(blocks, BlocksFor(|c|)), budget - |data|, offsets[fd := offsets[fd] + |data|]), Ok(|data|))
  {
    hide Overwrite, BlocksFor, Tally;
    if |data| <= budget {
      var c := Overwrite(content, offsets[fd], data);
      var next := OneFile(c, Max(blocks, BlocksFor(|c|)), budget - |data|, offsets[fd := offsets[fd] + |data|]);
      assert Step(s, Write(fd, data)).0.table == next.table && Step(s, Write(fd, data)).0.files == next.files;
    }
  }

  lemma SizeOnce(s: Fs, content: seq<byte>, blocks: nat, budget: int, offsets: seq<nat>, size: nat)
    requires 0 < |offsets| <= 2 && s == OneFile(content, blocks, budget, offsets) && Inv(s)
    requires 0 < size < |content| <= MAX_FILE_SIZE
    ensures Step(s, Resize(0, size))
      == (OneFile(content[..size], BlocksFor(size), MAX_FILE_SIZE - size, offsets), Ok(0))
  {
    hide BlocksFor, Tally;
    var next := OneFile(content[..size], BlocksFor(size), MAX_FILE_SIZE - size, offsets);
    assert Step(s, Resize(0, size)).0.table == next.table && Step(s, Resize(0, size)).0.files == next.files;
  }

  /** A run that starts with a call known not to break. */
  lemma Then(s: Fs, op: Op, rest: seq<Op>, t: Fs, reply: Reply)
    requires Inv(s) && Step(s, op) == (t, reply) && !reply.Broken?
    ensures Inv(t) && Run(s, [op] + rest) == (Run(t, rest).0, [reply] + Run(t, rest).1)
  {
    assert ([op] + rest)[1..] == rest;
  }

  lemma FewBlocks(n: nat)
    requires 0 < n <= BLOCK_SIZE
    ensures BlocksFor(n) == 1
  {
  }

  /** f holds three bytes, and descriptor 0 stands behind them. */
  ghost function ThreeBytes(): Fs { OneFile([1, 2, 3], 1, MAX_FILE_SIZE - 3, [3]) }

  lemma WriteThree(rest: seq<Op>)
    ensures Inv(EMPTY) && Inv(ThreeBytes())
    ensures Run(EMPTY, [Open("f", UFS_CREATE)] + ([Write(0, [1, 2, 3])] + rest))
      == (Run(ThreeBytes(), rest).0, [Ok(0)] + ([Ok(3)] + Run(ThreeBytes(), rest).1))
  {
    hide Run, Step, Inv, OneFile, BlocksFor;
    OpenFirst();
    var s1 := OneFile([], 0, MAX_FILE_SIZE, [0]);
    Then(EMPTY, Open("f", UFS_CREATE), [Write(0, [1, 2, 3])] + rest, s1, Ok(0));
    WriteOnce(s1, [], 0, MAX_FILE_SIZE, [0], 0, [1, 2, 3]);
    FewBlocks(3);
    assert Overwrite([], 0, [1, 2, 3]) == [1, 2, 3] && [0][0 := 0 + 3] == [3];
    Then(s1, Write(0, [1, 2, 3]), rest, ThreeBytes(), Ok(3));
  }

  /** From there on: another descriptor, a shrink to one byte, four bytes through it, and one through the first. */
  lemma ShrinkAndRefill()
    ensures Inv(ThreeBytes())
    ensures var (t, replies) :=
              Run(ThreeBytes(), [Open("f", 0)] + ([Resize(0, 1)] + ([Write(1, [4, 5, 6, 7])] + [Write(0, [9])])));
      && replies == [Ok(1)] + ([Ok(0)] + ([Ok(4)] + [Ok(1)]))
      && t == OneFile([4, 5, 6, 9], 1, MAX_FILE_SIZE - 6, [4, 4])
  {
    hide Run, Step, Inv, OneFile, BlocksFor;
    WriteThree([]);
    FewBlocks(1);
    FewBlocks(4);
    var s3 := OneFile([1, 2, 3], 1, MAX_FILE_SIZE - 3, [3, 0]);
    OpenSecond([1, 2, 3], 1, MAX_FILE_SIZE - 3, 3);
    Then(ThreeBytes(), Open("f", 0), [Resize(0, 1)] + ([Write(1, [4, 5, 6, 7])] + [Write(0, [9])]), s3, Ok(1));
    var s4 := OneFile([1], 1, MAX_FILE_SIZE - 1, [3, 0]);
    SizeOnce(s3, [1, 2, 3], 1, MAX_FILE_SIZE - 3, [3, 0], 1);
    assert [1, 2, 3][..1] == [1];
    Then(s3, Resize(0, 1), [Write(1, [4, 5, 6, 7])] + [Write(0, [9])], s4, Ok(0));
    var s5 := OneFile([4, 5, 6, 7], 1, MAX_FILE_SIZE - 5, [3, 4]);
    WriteOnce(s4, [1], 1, MAX_FILE_SIZE - 1, [3, 0], 1, [4, 5, 6, 7]);
    assert Overwrite([1], 0, [4, 5, 6, 7]) == [4, 5, 6, 7] && [3, 0][1 := 0 + 4] == [3, 4];
    Then(s4, Write(1, [4, 5, 6, 7]), [Write(0, [9])], s5, Ok(4));
    WriteOnce(s5, [4, 5, 6, 7], 1, MAX_FILE_SIZE - 5, [3, 4], 0, [9]);
    assert Overwrite([4, 5, 6, 7], 3, [9]) == [4, 5, 6, 9] && [3, 4][0 := 3 + 1] == [4, 4];
    RunLast(s5, Write(0, [9]));
  }

  /** Shrunk to one byte and refilled to four, the file takes the first descriptor's write at its old cursor. */
  lemma ResumesElsewhere()
    ensures Inv(EMPTY)
    ensures var (t, replies) :=
              Run(EMPTY, [Open("f", UFS_CREATE), Write(0, [1, 2, 3]), Open("f", 0), Resize(0, 1),
                          Write(1, [4, 5, 6, 7]), Write(0, [9])]);
      && replies == [Ok(0), Ok(3), Ok(1), Ok(0), Ok(4), Ok(1)]
      && |t.files| == 1 && t.files[0].content == [4, 5, 6, 9]
  {
    hide Run, Step, Inv, ThreeBytes;
    var rest := [Open("f", 0)] + ([Resize(0, 1)] + ([Write(1, [4, 5, 6, 7])] + [Write(0, [9])]));
    WriteThree(rest);
    ShrinkAndRefill();
    assert [Open("f", UFS_CREATE)] + ([Write(0, [1, 2, 3])] + rest)
      == [Open("f", UFS_CREATE), Write(0, [1, 2, 3]), Open("f", 0), Resize(0, 1), Write(1, [4, 5, 6, 7]),
          Write(0, [9])];
  }

  // ---------------------------------------------------------------- resize

  /** ufs_resize goes wrong exactly for these sizes, each fault on its own condition. */
  lemma ResizeBreaks(s: Fs, fd: int, size: nat)
    requires Inv(s) && Writer(s, fd) && size <= MAX_FILE_SIZE
    ensures var (node, reply) := (FileOf(s, fd), Step(s, Resize(fd, size)).1);
      && (reply == Broken(FreedChain) <==> size == 0 && node.blocks > 0)
      && (reply == Broken(SizeUnderflow) <==> size % BLOCK_SIZE != 0 && size >= |node.content|)
      && (!reply.Broken? ==> reply == Ok(0))
  {
  }

  lemma ThreeBreak()
    ensures Inv(ThreeBytes())
    ensures Step(ThreeBytes(), Resize(0, 3)).1 == Broken(SizeUnderflow)
    ensures Step(ThreeBytes(), Resize(0, 0)).1 == Broken(FreedChain)
  {
    WriteThree([]);
    hide Inv, BlocksFor;
    FewBlocks(3);
    ResizeBreaks(ThreeBytes(), 0, 3);
    ResizeBreaks(ThreeBytes(), 0, 0);
  }

  /** Sizing a three-byte file to its own size underflows; emptying it walks freed blocks. */
  lemma ResizeFaults()
    ensures Inv(EMPTY)
    ensures Run(EMPTY, [Open("f", UFS_CREATE), Write(0, [1, 2, 3]), Resize(0, 3)]).1
      == [Ok(0), Ok(3), Broken(SizeUnderflow)]
    ensures Run(EMPTY, [Open("f", UFS_CREATE), Write(0, [1, 2, 3]), Resize(0, 0)]).1
      == [Ok(0), Ok(3), Broken(FreedChain)]
  {
    hide Run, Step, Inv, OneFile, ThreeBytes;
    WriteThree([Resize(0, 3)]);
    WriteThree([Resize(0, 0)]);
    ThreeBreak();
    RunLast(ThreeBytes(), Resize(0, 3));
    RunLast(ThreeBytes(), Resize(0, 0));
    assert [Open("f", UFS_CREATE)] + ([Write(0, [1, 2, 3])] + [Resize(0, 3)])
      == [Open("f", UFS_CREATE), Write(0, [1, 2, 3]), Resize(0, 3)];
    assert [Open("f", UFS_CREATE)] + ([Write(0, [1, 2, 3])] + [Resize(0, 0)])
      == [Open("f", UFS_CREATE), Write(0, [1, 2, 3]), Resize(0, 0)];
  }

  /** Writing nothing to a file without blocks reads through its null head. */
  lemma NullHeadFault()
    ensures Inv(EMPTY)
    ensures Run(EMPTY, [Open("f", UFS_CREATE), Write(0, [])]).1 == [Ok(0), Broken(NullHead)]
  {
    OpenFirst();
    var s1 := OneFile([], 0, MAX_FILE_SIZE, [0]);
    AllowsAll();
    assert Step(s1, Write(0, [])).1 == Broken(NullHead);
    hide Run, Step, Inv;
    Then(EMPTY, Open("f", UFS_CREATE), [Write(0, [])], s1, Ok(0));
    RunLast(s1, Write(0, []));
    assert [Open("f", UFS_CREATE)] + [Write(0, [])] == [Open("f", UFS_CREATE), Write(0, [])];
  }

  // ---------------------------------------------------------------- the budget

  ghost function Zeros(n: nat): seq<byte> { seq(n, _ => 0) }

  /** A byte written over the first one of a full file is refused, although the file would stay as long as it is. */
  lemma RefusedThoughItFits()
    ensures Inv(EMPTY)
    ensures var ops := [Open("f", UFS_CREATE), Write(0, Zeros(MAX_FILE_SIZE)), Open("f", 0)];
      var s := Run(EMPTY, ops).0;
      && Writer(s, 1) && LengthAfter(s, 1, [7]) == MAX_FILE_SIZE
      && Step(s, Write(1, [7])).1 == Fails(NoMem)
  {
    hide Run, Step, Inv, OneFile, BlocksFor, Zeros;
    var n, data := MAX_FILE_SIZE, Zeros(MAX_FILE_SIZE);
    assert |data| == n by { ZerosLength(n); }
    OpenFirst();
    var s1 := OneFile([], 0, n, [0]);
    Then(EMPTY, Open("f", UFS_CREATE), [Write(0, data)] + [Open("f", 0)], s1, Ok(0));
    WriteOnce(s1, [], 0, n, [0], 0, data);
    assert Overwrite([], 0, data) == data && [0][0 := 0 + n] == [n];
    var b := Max(0, BlocksFor(n));
    var s2 := OneFile(data, b, 0, [n]);
    Then(s1, Write(0, data), [Open("f", 0)], s2, Ok(n));
    OpenSecond(data, b, 0, n);
    RunLast(s2, Open("f", 0));
    var s3 := OneFile(data, b, 0, [n, 0]);
    assert [Open("f", UFS_CREATE)] + ([Write(0, data)] + [Open("f", 0)])
      == [Open("f", UFS_CREATE), Write(0, data), Open("f", 0)];
    Then(s2, Open("f", 0), [], s3, Ok(1));
    WriteOnce(s3, data, b, 0, [n, 0], 1, [7]);
    SecondWriter(data, b, 0, n, [7]);
  }

  lemma ZerosLength(n: nat)
    ensures |Zeros(n)| == n
  {
  }

  lemma SecondWriter(content: seq<byte>, blocks: nat, budget: int, offset: nat, data: seq<byte>)
    requires Inv(OneFile(content, blocks, budget, [offset, 0])) && |data| <= |content|
    ensures var s := OneFile(content, blocks, budget, [offset, 0]);
      Writer(s, 1) && LengthAfter(s, 1, data) == |content|
  {
  }

  // ---------------------------------------------------------------- opening

  /** ufs_open returns 0, not a value above 0, exactly when slot 0 is free. */
  lemma OpenPositive(s: Fs, name: string, flags: bv32)
    requires Inv(s) && Step(s, Open(name, flags)).1.Ok?
    ensures Step(s, Open(name, flags)).1.value > 0 <==> IsValidFd(s, 0)
  {
    OpenTakesLowest(s, name, flags);
  }

  lemma OpenReturnsZero()
    ensures Inv(EMPTY) && Step(EMPTY, Open("f", UFS_CREATE)).1 == Ok(0)
  {
    OpenFirst();
  }

  /** The flags other than UFS_READ_ONLY that each allow writing. */
  const UFS_WRITERS: bv32 := UFS_CREATE | UFS_WRITE_ONLY | UFS_READ_WRITE

  /** A file opened with UFS_READ_ONLY may be written through that descriptor exactly if another flag allows it. */
  lemma ReadOnlyMayWrite(s: Fs, name: string, flags: bv32, data: seq<byte>)
    requires Inv(s) && Permitted(flags, UFS_READ_ONLY) && Step(s, Open(name, flags)).1.Ok?
    ensures var (t, reply) := Step(s, Open(name, flags));
      Step(t, Write(reply.value, data)).1 == Fails(NoPermission) <==> flags & UFS_WRITERS == 0
  {
    OpenTakesLowest(s, name, flags);
    WriterBits(flags);
  }

  lemma WriterBits(flags: bv32)
    requires Permitted(flags, UFS_READ_ONLY)
    ensures CanWrite(flags) <==> flags & UFS_WRITERS != 0
  {
  }

  /** A file created with UFS_CREATE | UFS_READ_ONLY can be written. */
  lemma ReadOnlyIsWritten()
    ensures Inv(EMPTY)
    ensures Run(EMPTY, [Open("f", UFS_CREATE | UFS_READ_ONLY), Write(0, [1])]).1 == [Ok(0), Ok(1)]
  {
    EmptyInv();
    var flags := UFS_CREATE | UFS_READ_ONLY;
    OpenTakesLowest(EMPTY, "f", flags);
    var (s1, reply) := Step(EMPTY, Open("f", flags));
    assert Permitted(flags, UFS_CREATE) && CanWrite(flags);
    assert reply == Ok(0) && s1.files == [NewNode("f").(refs := 1)];
    assert Step(s1, Write(0, [1])).1 == Ok(1);
    hide Run, Step, Inv;
    Then(EMPTY, Open("f", flags), [Write(0, [1])], s1, Ok(0));
    RunLast(s1, Write(0, [1]));
    assert [Open("f", flags)] + [Write(0, [1])] == [Open("f", flags), Write(0, [1])];
  }

  /** The flags other than UFS_WRITE_ONLY that each allow reading. */
  const UFS_READERS: bv32 := UFS_CREATE | UFS_READ_ONLY | UFS_READ_WRITE

  /** A file opened with UFS_WRITE_ONLY may be read through that descriptor exactly if another flag allows it. */
  lemma WriteOnlyMayRead(s: Fs, name: string, flags: bv32, size: nat)
    requires Inv(s) && Permitted(flags, UFS_WRITE_ONLY) && Step(s, Open(name, flags)).1.Ok?
    ensures var (t, reply) := Step(s, Open(name, flags));
      Step(t, Read(reply.value, size)).1 == Fails(NoPermission) <==> flags & UFS_READERS == 0
  {
    OpenTakesLowest(s, name, flags);
    ReaderBits(flags);
  }

  lemma ReaderBits(flags: bv32)
    requires Permitted(flags, UFS_WRITE_ONLY)
    ensures CanRead(flags) <==> flags & UFS_READERS != 0
  {
  }

  /** A file created with UFS_CREATE | UFS_WRITE_ONLY can be read. */
  lemma WriteOnlyIsRead()
    ensures Inv(EMPTY)
    ensures Run(EMPTY, [Open("f", UFS_CREATE | UFS_WRITE_ONLY), Read(0, 1)]).1 == [Ok(0), Bytes([])]
  {
    EmptyInv();
    var flags := UFS_CREATE | UFS_WRITE_ONLY;
    OpenTakesLowest(EMPTY, "f", flags);
    var (s1, reply) := Step(EMPTY, Open("f", flags));
    assert Permitted(flags, UFS_CREATE) && CanRead(flags);
    assert reply == Ok(0) && s1.files == [NewNode("f").(refs := 1)];
    assert Step(s1, Read(0, 1)).1 == Bytes([]);
    hide Run, Step, Inv;
    Then(EMPTY, Open("f", flags), [Read(0, 1)], s1, Ok(0));
    RunLast(s1, Read(0, 1));
    assert [Open("f", flags)] + [Read(0, 1)] == [Open("f", flags), Read(0, 1)];
  }
}
