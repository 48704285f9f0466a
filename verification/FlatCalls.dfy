/**
 * What every call of the file system does, as its caller sees it: which descriptors are valid and where they stand,
 * which names are listed, the bytes of every file, and when a file goes.
 */
module FlatCalls {
  import opened Wrappers

  import opened Chunks
  import opened FlatFs
  import opened FlatRuns

  /** File id is listed under the name. */
  predicate Listed(s: Fs, name: string, id: nat) { id in s.names && id < |s.files| && s.files[id].name == name }

  /** Descriptor k and what it refers to are the same in both states, or it is valid in neither. */
  predicate SameDescriptor(s: Fs, t: Fs, k: int) {
    IsValidFd(s, k) == IsValidFd(t, k) && (IsValidFd(s, k) ==> s.table[k] == t.table[k])
  }

  /** Every descriptor but k is as it was. */
  ghost predicate OnlyDescriptor(s: Fs, t: Fs, k: int) { forall j: int | j != k :: SameDescriptor(s, t, j) }

  /** Every file but id is as it was. */
  ghost predicate OnlyFile(s: Fs, t: Fs, id: nat) {
    |s.files| <= |t.files| && forall x | 0 <= x < |s.files| && x != id :: t.files[x] == s.files[x]
  }

  // ---------------------------------------------------------------- permissions

  /** Each flag allows what it names, UFS_CREATE and no flags at all allow both. */
  lemma Permissions(flags: bv32)
    ensures CanRead(flags) <==> flags == 0 || flags & (UFS_CREATE | UFS_READ_ONLY | UFS_READ_WRITE) != 0
    ensures CanWrite(flags) <==> flags == 0 || flags & (UFS_CREATE | UFS_WRITE_ONLY | UFS_READ_WRITE) != 0
    ensures Permitted(flags, UFS_CREATE) <==> flags & UFS_CREATE != 0
  {
  }

  // ---------------------------------------------------------------- the calls

  /** From s to t, descriptor fd is opened on the file listed under the name, which is a new one if there was none. */
  ghost predicate OpensAs(s: Fs, t: Fs, name: string, flags: bv32, fd: int) {
    && !IsValidFd(s, fd) && IsValidFd(t, fd) && OnlyDescriptor(s, t, fd) && t.count == s.count + 1
    && var d := t.table[fd].desc;
       && d.offset == 0 && d.canRead == CanRead(flags) && d.canWrite == CanWrite(flags)
       && Listed(t, name, d.file) && OnlyFile(s, t, d.file)
       && (forall n, id: nat | id < |s.files| :: Listed(t, n, id) <==> Listed(s, n, id))
       && (forall n, id: nat :: Listed(t, n, id) && !Listed(s, n, id) ==> n == name && id == d.file == |s.files|)
       && if d.file < |s.files| then
            |t.files| == |s.files| && t.files[d.file] == s.files[d.file].(refs := s.files[d.file].refs + 1)
          else
            && d.file == |s.files| == |t.files| - 1
            && t.files[d.file] == Node(name, [], 0, MAX_FILE_SIZE, 1, true, true)
  }

  /** ufs_open: the listed file, or a new empty one, gets one more descriptor, at offset zero. */
  lemma Opened(s: Fs, name: string, flags: bv32)
    requires Inv(s) && Step(s, Open(name, flags)).1.Ok?
    ensures var (t, reply) := Step(s, Open(name, flags));
      OpensAs(s, t, name, flags, reply.value)
  {
    hide OpensAs;
    if Lookup(s.files, s.names, name).Some? { OpensListed(s, name, flags); } else { OpensNew(s, name, flags); }
  }

  lemma OpensListed(s: Fs, name: string, flags: bv32)
    requires Inv(s) && Lookup(s.files, s.names, name).Some?
    ensures var (t, reply) := Step(s, Open(name, flags));
      reply.Ok? && OpensAs(s, t, name, flags, reply.value)
  {
    OpenTakesLowest(s, name, flags);
    var id := Lookup(s.files, s.names, name).value;
    Attached(s, id, flags);
    var (t, reply) := Step(s, Open(name, flags));
    assert (t, reply) == Attach(s, id, flags) && id in s.names;
    hide Inv, Step, Attach, Tally, CanRead, CanWrite, Permitted, Lookup;
    assert forall x | 0 <= x < |s.files| :: t.files[x].name == s.files[x].name;
  }

  lemma Attached(s: Fs, id: nat, flags: bv32)
    requires id < |s.files| && TableOk(s.files, s.table, s.count)
    ensures var (t, reply) := Attach(s, id, flags);
      && reply.Ok? && IsValidFd(t, reply.value) && OnlyDescriptor(s, t, reply.value)
      && t.table[reply.value].desc == Desc(id, 0, CanRead(flags), CanWrite(flags))
      && t.names == s.names && t.count == s.count + 1
      && t.files == s.files[id := s.files[id].(refs := s.files[id].refs + 1)]
  {
    SlotExists(s.table, s.count);
    hide Tally, CanRead, CanWrite;
  }

  lemma OpensNew(s: Fs, name: string, flags: bv32)
    requires Inv(s) && Lookup(s.files, s.names, name).None? && Permitted(flags, UFS_CREATE)
    ensures var (t, reply) := Step(s, Open(name, flags));
      reply.Ok? && OpensAs(s, t, name, flags, reply.value)
  {
    OpenTakesLowest(s, name, flags);
    SlotExists(s.table, s.count);
    hide Tally, CanRead, CanWrite, Permitted;
  }

  /** ufs_write: the four refusals, and where the bytes go. */
  lemma Wrote(s: Fs, fd: int, data: seq<byte>)
    requires Inv(s)
    ensures var (t, reply) := Step(s, Write(fd, data));
      if !IsValidFd(s, fd) then (t, reply) == (s, Fails(NoFile))
      else if !s.table[fd].desc.canWrite then (t, reply) == (s, Fails(NoPermission))
      else if |data| > FileOf(s, fd).budget then (t, reply) == (s, Fails(NoMem))
      else if data == [] && FileOf(s, fd).blocks == 0 then reply == Broken(NullHead)
      else
        && reply == Ok(|data|) && IsValidFd(t, fd) && OnlyDescriptor(s, t, fd) && t.names == s.names
        && t.table[fd].desc == s.table[fd].desc.(offset := s.table[fd].desc.offset + |data|)
        && OnlyFile(s, t, s.table[fd].desc.file) && |t.files| == |s.files|
        && FileOf(t, fd).budget == FileOf(s, fd).budget - |data|
        && Lands(FileOf(s, fd).content, Min(s.table[fd].desc.offset, |FileOf(s, fd).content|), data,
                 FileOf(t, fd).content)
  {
    hide Tally, BlocksFor;
  }

  /** new is old with data from byte number p on. */
  ghost predicate Lands(old_: seq<byte>, p: nat, data: seq<byte>, new_: seq<byte>) {
    && |new_| == (if p + |data| > |old_| then p + |data| else |old_|)
    && forall k | 0 <= k < |new_| ::
         if p <= k < p + |data| then new_[k] == data[k - p] else k < |old_| && new_[k] == old_[k]
  }

  /** ufs_read: the two refusals, and which bytes it returns. */
  lemma ReadGives(s: Fs, fd: int, size: nat)
    requires Inv(s)
    ensures var (t, reply) := Step(s, Read(fd, size));
      if !IsValidFd(s, fd) then (t, reply) == (s, Fails(NoFile))
      else if !s.table[fd].desc.canRead then (t, reply) == (s, Fails(NoPermission))
      else
        && reply.Bytes? && IsValidFd(t, fd) && OnlyDescriptor(s, t, fd) && t.names == s.names && t.files == s.files
        && t.table[fd].desc == s.table[fd].desc.(offset := s.table[fd].desc.offset + |reply.data|)
        && var (c, offset) := (FileOf(s, fd).content, s.table[fd].desc.offset);
           && |reply.data| <= size && (|reply.data| == size || offset + |reply.data| >= |c|)
           && (|reply.data| > 0 ==> offset + |reply.data| <= |c|)
           && forall k | 0 <= k < |reply.data| :: reply.data[k] == c[offset + k]
  {
    hide Tally;
  }

  /** ufs_close: the descriptor goes, and with the last one of an unlinked file the file. */
  lemma Closed(s: Fs, fd: int)
    requires Inv(s)
    ensures var (t, reply) := Step(s, Close(fd));
      if !IsValidFd(s, fd) then (t, reply) == (s, Fails(NoFile)) else
        && reply == Ok(0) && !IsValidFd(t, fd) && OnlyDescriptor(s, t, fd)
        && t.names == s.names && t.count == s.count - 1
        && var id := s.table[fd].desc.file;
           && OnlyFile(s, t, id) && |t.files| == |s.files| && t.files[id].refs == s.files[id].refs - 1
           && (!t.files[id].alive <==>
                 !s.files[id].listed
                 && forall k | 0 <= k < |s.table| && k != fd && s.table[k].Used? :: s.table[k].desc.file != id)
           && (t.files[id].alive ==> SameBytes(t.files[id], s.files[id]))
  {
    if IsValidFd(s, fd) {
      NoDangling(s, fd);
      var t := Step(s, Close(fd)).0;
      var id := s.table[fd].desc.file;
      assert NodeOk(t.files[id], Refs(t.table, id));
      OneOf(t.table, id);
      assert forall k | 0 <= k < |s.table| && k != fd :: t.table[k] == s.table[k];
    }
  }

  /** A file is referred to exactly if some descriptor refers to it. */
  lemma {:induction false} OneOf(t: seq<Slot>, id: nat)
    ensures Refs(t, id) > 0 <==> exists k :: 0 <= k < |t| && t[k].Used? && t[k].desc.file == id
  {
    if k :| 0 <= k < |t| && t[k].Used? && t[k].desc.file == id {
      TallyPositive(t, k, Some(id));
    } else {
      NobodyRefers(t, id);
    }
  }

  lemma {:induction false} NobodyRefers(t: seq<Slot>, id: nat)
    requires forall k | 0 <= k < |t| && t[k].Used? :: t[k].desc.file != id
    ensures Refs(t, id) == 0
  {
    if t != [] {
      assert forall k | 0 <= k < |t| - 1 :: t[1..][k] == t[k + 1];
      NobodyRefers(t[1..], id);
    }
  }

  /** ufs_delete: the name goes; the file goes if nobody has it open, and is left as it is otherwise. */
  lemma Deleted(s: Fs, name: string)
    requires Inv(s)
    ensures var (t, reply) := Step(s, Delete(name));
      if forall id: nat :: !Listed(s, name, id) then (t, reply) == (s, Fails(NoFile)) else
        && reply == Ok(0) && t.table == s.table && t.count == s.count && |t.files| == |s.files|
        && (forall id: nat :: !Listed(t, name, id))
        && (forall n, id: nat | n != name :: Listed(t, n, id) <==> Listed(s, n, id))
        && forall id: nat | Listed(s, name, id) ::
             && OnlyFile(s, t, id) && !t.files[id].listed && t.files[id].refs == s.files[id].refs
             && (t.files[id].alive <==>
                   exists k :: 0 <= k < |s.table| && s.table[k].Used? && s.table[k].desc.file == id)
             && (t.files[id].alive ==> SameBytes(t.files[id], s.files[id]))
  {
    var hit := Lookup(s.files, s.names, name);
    if hit.Some? {
      var x := hit.value;
      assert Listed(s, name, x);
      Unlinked(s, name, x);
      WithoutOne(s.names, x);
      forall id: nat | Listed(s, name, id) ensures id == x { OnlyOneListed(s, name, id, x); }
      OneOf(s.table, x);
      hide Tally, NamesOk, NodeOk, Lookup;
    } else {
      forall id: nat ensures !Listed(s, name, id) {
        if id in s.names { var i :| 0 <= i < |s.names| && s.names[i] == id; }
      }
    }
  }

  lemma Unlinked(s: Fs, name: string, x: nat)
    requires Inv(s) && Lookup(s.files, s.names, name) == Some(x)
    ensures var (t, reply) := Step(s, Delete(name));
      && reply == Ok(0) && t.table == s.table && t.count == s.count && t.names == Without(s.names, x)
      && |t.files| == |s.files| && OnlyFile(s, t, x)
      && t.files[x].name == s.files[x].name && !t.files[x].listed && t.files[x].refs == s.files[x].refs
      && (t.files[x].alive <==> Refs(s.table, x) > 0)
      && (t.files[x].alive ==> SameBytes(t.files[x], s.files[x]))
  {
    hide Tally;
    var t := Step(s, Delete(name)).0;
    assert NodeOk(s.files[x], Refs(s.table, x)) && NodeOk(t.files[x], Refs(t.table, x));
  }

  lemma OnlyOneListed(s: Fs, name: string, a: nat, b: nat)
    requires Inv(s) && Listed(s, name, a) && Listed(s, name, b)
    ensures a == b
  {
    if a != b { DistinctNames(s.files, s.names, a, b); }
  }

  /** ufs_resize: the three refusals, and what is left of the file. */
  lemma Resized(s: Fs, fd: int, size: nat)
    requires Inv(s)
    ensures var (t, reply) := Step(s, Resize(fd, size));
      if !IsValidFd(s, fd) then (t, reply) == (s, Fails(NoFile))
      else if !s.table[fd].desc.canWrite then (t, reply) == (s, Fails(NoPermission))
      else if size > MAX_FILE_SIZE then (t, reply) == (s, Fails(NoMem))
      else if reply.Broken? then t == s
      else
        && reply == Ok(0) && t.table == s.table && t.names == s.names && t.count == s.count
        && |t.files| == |s.files| && OnlyFile(s, t, s.table[fd].desc.file)
        && var (a, b) := (FileOf(s, fd), FileOf(t, fd));
           && b.content == (if size < |a.content| then a.content[..size] else a.content)
           && b.budget == MAX_FILE_SIZE - |b.content|
           && size <= b.blocks * BLOCK_SIZE < size + BLOCK_SIZE
           && b.refs == a.refs && b.listed == a.listed && b.alive && b.name == a.name
  {
    hide Tally;
    if IsValidFd(s, fd) { NoDangling(s, fd); }
  }

  // ---------------------------------------------------------------- over runs

  /** The call goes through descriptor k. */
  predicate Through(op: Op, k: nat) { (op.Write? || op.Read? || op.Close? || op.Resize?) && op.fd == k }

  /**
   * A descriptor that is not open, such as one just closed, answers every call through it with UFS_ERR_NO_FILE, until
   * an open returns its number.
   */
  lemma {:induction false} NoFileUntilOpened(s: Fs, ops: seq<Op>, k: nat, i: nat)
    requires Inv(s) && !IsValidFd(s, k) && i < |Run(s, ops).1| && i < |ops| && Through(ops[i], k)
    requires forall j | 0 <= j < i && j < |ops| && ops[j].Open? :: Run(s, ops).1[j] != Ok(k)
    ensures Run(s, ops).1[i] == Fails(NoFile)
    decreases i
  {
    hide Run, Step, Inv;
    var s1 := Step(s, ops[0]).0;
    FirstReply(s, ops);
    if i == 0 {
      Refused(s, ops[0], k);
    } else {
      var rest := Run(s1, ops[1..]).1;
      StaysClosed(s, ops[0], k);
      assert forall j | 0 <= j < i - 1 && j < |ops| - 1 && ops[1..][j].Open? ::
        ops[j + 1].Open? && rest[j] == Run(s, ops).1[j + 1];
      NoFileUntilOpened(s1, ops[1..], k, i - 1);
    }
  }

  lemma FirstReply(s: Fs, ops: seq<Op>)
    requires Inv(s) && ops != []
    ensures var (s1, reply) := Step(s, ops[0]);
      && Run(s, ops).1 != [] && Run(s, ops).1[0] == reply
      && (|Run(s, ops).1| > 1 ==> Run(s, ops).1 == [reply] + Run(s1, ops[1..]).1)
  {
    hide Step, Inv;
  }

  lemma Refused(s: Fs, op: Op, k: nat)
    requires Inv(s) && !IsValidFd(s, k) && Through(op, k)
    ensures Step(s, op) == (s, Fails(NoFile))
  {
  }

  /** Only an open that returns the number makes a descriptor valid. */
  lemma StaysClosed(s: Fs, op: Op, k: nat)
    requires Inv(s) && !IsValidFd(s, k)
    ensures IsValidFd(Step(s, op).0, k) <==> op.Open? && Step(s, op).1 == Ok(k)
  {
    hide Inv, Step, Tally;
    match op
    case Open(name, flags) =>
      OpenTakesLowest(s, name, flags);
      if Step(s, op).1.Ok? {
        Opened(s, name, flags);
        assert Step(s, op).1 == Ok(k) || SameDescriptor(s, Step(s, op).0, k);
      }
    case Write(fd, data) => Wrote(s, fd, data); assert fd == k || SameDescriptor(s, Step(s, op).0, k);
    case Read(fd, size) => ReadGives(s, fd, size); assert fd == k || SameDescriptor(s, Step(s, op).0, k);
    case Close(fd) => Closed(s, fd); assert fd == k || SameDescriptor(s, Step(s, op).0, k);
    case Delete(name) => Deleted(s, name);
    case Resize(fd, size) => Resized(s, fd, size);
  }

  /**
   * A name that is not listed, such as one just deleted, stays so until an open with UFS_CREATE names it: every delete
   * of it and every other open of it answers UFS_ERR_NO_FILE.
   */
  lemma {:induction false} NoNameUntilCreated(s: Fs, ops: seq<Op>, name: string, i: nat)
    requires Inv(s) && (forall id: nat :: !Listed(s, name, id)) && i < |Run(s, ops).1| && i < |ops|
    requires forall j | 0 <= j < i && j < |ops| && ops[j].Open? && ops[j].name == name ::
      !Permitted(ops[j].flags, UFS_CREATE)
    requires ops[i] == Delete(name)
      || (ops[i].Open? && ops[i].name == name && !Permitted(ops[i].flags, UFS_CREATE))
    ensures Run(s, ops).1[i] == Fails(NoFile)
    decreases i
  {
    hide Run, Step, Inv, Permitted;
    var s1 := Step(s, ops[0]).0;
    FirstReply(s, ops);
    if i == 0 {
      if ops[0].Open? { OpenTakesLowest(s, name, ops[0].flags); Unlisted(s, name); } else { Deleted(s, name); }
    } else {
      StaysUnlisted(s, ops[0], name);
      assert forall j | 0 <= j < i - 1 && j < |ops| - 1 :: ops[1..][j] == ops[j + 1];
      NoNameUntilCreated(s1, ops[1..], name, i - 1);
    }
  }

  lemma Unlisted(s: Fs, name: string)
    requires Inv(s) && forall id: nat :: !Listed(s, name, id)
    ensures forall id | id in s.names :: s.files[id].name != name
  {
    forall id | id in s.names ensures s.files[id].name != name {
      assert !Listed(s, name, id);
    }
  }

  lemma StaysUnlisted(s: Fs, op: Op, name: string)
    requires Inv(s) && forall id: nat :: !Listed(s, name, id)
    requires op.Open? && op.name == name ==> !Permitted(op.flags, UFS_CREATE)
    ensures forall id: nat :: !Listed(Step(s, op).0, name, id)
  {
    hide Step, Tally, Permitted;
    match op
    case Open(n, flags) =>
      OpenTakesLowest(s, n, flags);
      if Step(s, op).1.Ok? {
        if n == name { Unlisted(s, name); }
        Opened(s, n, flags);
      }
    case Write(fd, data) => SameNames(s, op, name);
    case Read(fd, size) => SameNames(s, op, name);
    case Close(fd) => SameNames(s, op, name);
    case Delete(n) => Deleted(s, n);
    case Resize(fd, size) => SameNames(s, op, name);
  }

  /** Calls through descriptors change no name. */
  lemma SameNames(s: Fs, op: Op, name: string)
    requires Inv(s) && (op.Write? || op.Read? || op.Close? || op.Resize?)
    ensures forall id: nat :: Listed(Step(s, op).0, name, id) <==> Listed(s, name, id)
  {
    hide Tally, Overwrite, BlocksFor, Truncate, Slice;
  }

  // ---------------------------------------------------------------- memory

  /** What is dead has given its blocks back. */
  ghost predicate DeadIsFreed(s: Fs) {
    forall id | 0 <= id < |s.files| && !s.files[id].alive :: s.files[id].content == [] && s.files[id].blocks == 0
  }

  lemma StepFrees(s: Fs, op: Op)
    requires Inv(s) && DeadIsFreed(s)
    ensures DeadIsFreed(Step(s, op).0)
  {
    hide Tally, Overwrite, BlocksFor, Slice, Lookup;
    match op
    case Open(name, flags) =>
      if Step(s, op).1.Ok? { Opened(s, name, flags); }
    case Write(fd, _) => if IsValidFd(s, fd) { NoDangling(s, fd); }
    case Read(_, _) =>
    case Close(_) =>
    case Delete(_) =>
    case Resize(fd, _) => if IsValidFd(s, fd) { NoDangling(s, fd); }
  }

  lemma {:induction false} RunFrees(s: Fs, ops: seq<Op>)
    requires Inv(s) && DeadIsFreed(s)
    ensures DeadIsFreed(Run(s, ops).0)
    decreases |ops|
  {
    hide Inv, Step, DeadIsFreed;
    if ops != [] {
      StepFrees(s, ops[0]);
      RunFrees(Step(s, ops[0]).0, ops[1..]);
    }
  }

  /** Once every name has been deleted and every descriptor closed, no file of the run holds a block any more. */
  lemma NothingLeaks(ops: seq<Op>)
    ensures Inv(EMPTY)
    ensures var t := Run(EMPTY, ops).0;
      t.names == [] && (forall k :: !IsValidFd(t, k)) ==>
        forall id | 0 <= id < |t.files| :: !t.files[id].alive && t.files[id].content == [] && t.files[id].blocks == 0
  {
    RunFrees(EMPTY, ops);
    var t := Run(EMPTY, ops).0;
    if t.names == [] && forall k :: !IsValidFd(t, k) {
      forall id | 0 <= id < |t.files| ensures !t.files[id].alive {
        forall k | 0 <= k < |t.table| ensures t.table[k].Free? { assert !IsValidFd(t, k); }
        NobodyRefers(t.table, id);
        assert NodeOk(t.files[id], Refs(t.table, id));
      }
    }
  }

  /** The table is first allocated with ten slots, and doubled only when an open finds every slot occupied. */
  lemma TableGrows(s: Fs, op: Op)
    requires Inv(s)
    ensures var (before, after) := (s.table, Step(s, op).0.table);
      |after| == |before| || (
        && op.Open? && (forall k | 0 <= k < |before| :: before[k].Used?)
        && |after| == if before == [] then 10 else 2 * |before|)
  {
    GrownWhenFull(s.table, s.count);
    hide Tally, Overwrite, BlocksFor, Slice, Grown;
    match op
    case Open(name, flags) =>
      SlotExists(s.table, s.count);
      assert Step(s, op).1.Ok? ==> |Step(s, op).0.table| == |Grown(s.table, s.count)|;
    case Write(_, _) =>
    case Read(_, _) =>
    case Close(_) =>
    case Delete(_) =>
    case Resize(_, _) =>
  }

  lemma GrownWhenFull(t: seq<Slot>, count: int)
    requires count == Occupied(t)
    ensures var after := Grown(t, count);
      |after| == |t| || ((forall k | 0 <= k < |t| :: t[k].Used?) && |after| == if t == [] then 10 else 2 * |t|)
    ensures (forall k | 0 <= k < |t| :: t[k].Used?) ==> count == |t|
  {
    FullTable(t);
    hide Tally;
  }

  /** The most descriptors that are open at once in a run. */
  ghost function MostOpen(s: Fs, ops: seq<Op>): int
    requires Inv(s)
    decreases |ops|
  {
    if ops == [] then s.count else Max(s.count, MostOpen(Step(s, ops[0]).0, ops[1..]))
  }

  /** So no run makes the table longer than ten slots and twice that number. */
  lemma {:induction false} TableBounded(s: Fs, ops: seq<Op>)
    requires Inv(s)
    ensures |Run(s, ops).0.table| <= Max(Max(10, |s.table|), 2 * MostOpen(s, ops))
    decreases |ops|
  {
    hide Step, Tally, NamesOk, NodeOk;
    if ops != [] {
      var u := Step(s, ops[0]).0;
      GrownWhenFull(s.table, s.count);
      TableGrows(s, ops[0]);
      TableBounded(u, ops[1..]);
    }
  }
}
