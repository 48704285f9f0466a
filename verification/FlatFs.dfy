/**
 * The flat meaning of userfs.c: files are byte strings, descriptors are cursors.
 *
 * Files are numbered in creation order. `names` is the name list, oldest first; a file
 * deleted while open stays in `files` and lives until its last descriptor closes.
 */
module FlatFs {
  import opened Wrappers

  import opened Chunks

  const UFS_CREATE: bv32 := 1
  const UFS_READ_ONLY: bv32 := 2
  const UFS_WRITE_ONLY: bv32 := 4
  const UFS_READ_WRITE: bv32 := 8

  predicate Permitted(flags: bv32, flag: bv32) { flags & flag == flag }

  predicate CanRead(flags: bv32) {
    flags == 0 || Permitted(flags, UFS_CREATE) || Permitted(flags, UFS_READ_ONLY) || Permitted(flags, UFS_READ_WRITE)
  }

  predicate CanWrite(flags: bv32) {
    flags == 0 || Permitted(flags, UFS_CREATE) || Permitted(flags, UFS_WRITE_ONLY) || Permitted(flags, UFS_READ_WRITE)
  }

  /** blocks is the length of the chain; budget is what bytes_left counts. */
  datatype Node = Node(name: string, content: seq<byte>, blocks: nat, budget: int, refs: int, listed: bool, alive: bool)

  datatype Desc = Desc(file: nat, offset: nat, canRead: bool, canWrite: bool)
  datatype Slot = Free | Used(desc: Desc)

  datatype Fs = Fs(files: seq<Node>, names: seq<nat>, table: seq<Slot>, count: int)

  datatype Error = NoFile | NoMem | NoPermission
  /** The ways an operation leaves the defined behaviour of C. */
  datatype Fault = NullHead | SizeUnderflow | FreedChain
  datatype Reply = Ok(value: int) | Bytes(data: seq<byte>) | Fails(error: Error) | Broken(fault: Fault)

  datatype Op =
    | Open(name: string, flags: bv32)
    | Write(fd: int, data: seq<byte>)
    | Read(fd: int, size: nat)
    | Close(fd: int)
    | Delete(name: string)
    | Resize(fd: int, size: nat)

  const EMPTY := Fs([], [], [], 0)

  // ---------------------------------------------------------------- descriptor table

  /** Whether the slot is occupied, or occupied by a descriptor of the given file. */
  predicate Points(slot: Slot, who: Option<nat>) {
    slot.Used? && (who.None? || slot.desc.file == who.value)
  }

  function Tally(t: seq<Slot>, who: Option<nat>): nat {
    if t == [] then 0 else (if Points(t[0], who) then 1 else 0) + Tally(t[1..], who)
  }

  function Occupied(t: seq<Slot>): nat { Tally(t, None) }

  function Refs(t: seq<Slot>, id: nat): nat { Tally(t, Some(id)) }

  function FirstFree(t: seq<Slot>): (k: nat)
    ensures k <= |t| && (k < |t| ==> t[k].Free?)
    ensures forall j | 0 <= j < k :: t[j].Used?
  {
    if t == [] || t[0].Free? then 0 else
      var k := 1 + FirstFree(t[1..]);
      assert forall j | 1 <= j < k :: t[j] == t[1..][j - 1];
      k
  }

  function Frees(n: nat): seq<Slot> { seq(n, _ => Free) }

  /** The table with room for one more descriptor: ten slots at first, then doubled when full. */
  function Grown(t: seq<Slot>, count: int): seq<Slot> {
    if t == [] then Frees(10) else if count == |t| then t + Frees(|t|) else t
  }

  predicate IsValidFd(s: Fs, fd: int) { 0 <= fd < |s.table| && s.table[fd].Used? }

  // ---------------------------------------------------------------- invariant

  ghost predicate TableOk(files: seq<Node>, table: seq<Slot>, count: int) {
    && count == Occupied(table)
    && forall k | 0 <= k < |table| && table[k].Used? :: table[k].desc.file < |files|
  }

  /** A file's reference count is the number of its descriptors, it lives while listed or open, and it fits. */
  ghost predicate NodeOk(node: Node, refs: nat) {
    && node.refs == refs
    && (node.alive <==> node.listed || refs > 0)
    && node.budget >= 0 && |node.content| + node.budget <= MAX_FILE_SIZE
    && |node.content| <= node.blocks * BLOCK_SIZE
  }

  /** Listed files are named in creation order and have distinct names. */
  ghost predicate NamesOk(files: seq<Node>, names: seq<nat>) {
    && (forall i | 0 <= i < |names| :: names[i] < |files|)
    && Ascending(names)
    && (forall i, j | 0 <= i < j < |names| :: files[names[i]].name != files[names[j]].name)
    && (forall id | 0 <= id < |files| :: files[id].listed <==> id in names)
  }

  ghost predicate Inv(s: Fs) {
    && TableOk(s.files, s.table, s.count)
    && NamesOk(s.files, s.names)
    && forall id | 0 <= id < |s.files| :: NodeOk(s.files[id], Refs(s.table, id))
  }

  // ---------------------------------------------------------------- operations

  function Lookup(files: seq<Node>, names: seq<nat>, name: string): (r: Option<nat>)
    requires forall i | 0 <= i < |names| :: names[i] < |files|
    ensures r.Some? ==> r.value in names && files[r.value].name == name
    ensures r.None? ==> forall i | 0 <= i < |names| :: files[names[i]].name != name
  {
    if names == [] then None
    else if files[names[0]].name == name then Some(names[0])
    else
      assert forall i | 1 <= i < |names| :: names[i] == names[1..][i - 1];
      Lookup(files, names[1..], name)
  }

  function NewNode(name: string): Node {
    Node(name, [], 0, MAX_FILE_SIZE, 0, true, true)
  }

  /** free_file_memory and free. */
  function Dead(node: Node): Node {
    node.(content := [], blocks := 0, budget := MAX_FILE_SIZE, alive := false)
  }

  /** The file once nothing keeps it: freed if it is neither listed nor referenced. */
  function Settled(node: Node): Node {
    if node.refs == 0 && !node.listed then Dead(node) else node
  }

  function Attach(s: Fs, id: nat, flags: bv32): (Fs, Reply)
    requires id < |s.files| && TableOk(s.files, s.table, s.count)
  {
    SlotExists(s.table, s.count);
    var t := Grown(s.table, s.count);
    var fd := FirstFree(t);
    var node := s.files[id];
    (Fs(s.files[id := node.(refs := node.refs + 1)], s.names,
        t[fd := Used(Desc(id, 0, CanRead(flags), CanWrite(flags)))], s.count + 1),
     Ok(fd))
  }

  function DoOpen(s: Fs, name: string, flags: bv32): (Fs, Reply)
    requires Inv(s)
  {
    match Lookup(s.files, s.names, name)
    case Some(id) => Attach(s, id, flags)
    case None =>
      if Permitted(flags, UFS_CREATE) then
        Attach(s.(files := s.files + [NewNode(name)], names := s.names + [|s.files|]), |s.files|, flags)
      else (s, Fails(NoFile))
  }

  function MoveTo(d: Desc, offset: nat): Slot { Used(d.(offset := offset)) }

  /** The file after an accepted write. */
  function Written(node: Node, offset: nat, data: seq<byte>): Node {
    var content := Overwrite(node.content, offset, data);
    node.(content := content, blocks := Max(node.blocks, BlocksFor(|content|)), budget := node.budget - |data|)
  }

  function DoWrite(s: Fs, fd: int, data: seq<byte>): (Fs, Reply)
    requires Inv(s)
  {
    if !IsValidFd(s, fd) then (s, Fails(NoFile)) else
    var d := s.table[fd].desc;
    if !d.canWrite then (s, Fails(NoPermission)) else
    var node := s.files[d.file];
    if |data| > node.budget then (s, Fails(NoMem)) else
    if data == [] && node.blocks == 0 then (s, Broken(NullHead)) else
    (s.(files := s.files[d.file := Written(node, d.offset, data)],
        table := s.table[fd := MoveTo(d, d.offset + |data|)]),
     Ok(|data|))
  }

  function DoRead(s: Fs, fd: int, size: nat): (Fs, Reply)
    requires Inv(s)
  {
    if !IsValidFd(s, fd) then (s, Fails(NoFile)) else
    var d := s.table[fd].desc;
    if !d.canRead then (s, Fails(NoPermission)) else
    var data := Slice(s.files[d.file].content, d.offset, size);
    (s.(table := s.table[fd := MoveTo(d, d.offset + |data|)]), Bytes(data))
  }

  function DoClose(s: Fs, fd: int): (Fs, Reply)
    requires Inv(s)
  {
    if !IsValidFd(s, fd) then (s, Fails(NoFile)) else
    var id := s.table[fd].desc.file;
    var node := s.files[id];
    (s.(files := s.files[id := Settled(node.(refs := node.refs - 1))],
        table := s.table[fd := Free],
        count := s.count - 1),
     Ok(0))
  }

  /** names without id, which occurs in it at most once. */
  function Without(names: seq<nat>, id: nat): seq<nat> {
    if names == [] then [] else if names[0] == id then names[1..] else [names[0]] + Without(names[1..], id)
  }

  function DoDelete(s: Fs, name: string): (Fs, Reply)
    requires Inv(s)
  {
    match Lookup(s.files, s.names, name)
    case None => (s, Fails(NoFile))
    case Some(id) =>
      (s.(files := s.files[id := Settled(s.files[id].(listed := false))], names := Without(s.names, id)), Ok(0))
  }

  /** What a caller has to check for ufs_resize to do its work. */
  predicate CanResize(node: Node, size: nat) {
    if size == 0 then node.blocks == 0 else size % BLOCK_SIZE == 0 || size < |node.content|
  }

  function Sized(node: Node, size: nat): Node {
    var content := Truncate(node.content, size);
    node.(content := content, blocks := BlocksFor(size), budget := MAX_FILE_SIZE - |content|)
  }

  function DoResize(s: Fs, fd: int, size: nat): (Fs, Reply)
    requires Inv(s)
  {
    if !IsValidFd(s, fd) then (s, Fails(NoFile)) else
    var d := s.table[fd].desc;
    if !d.canWrite then (s, Fails(NoPermission)) else
    if size > MAX_FILE_SIZE then (s, Fails(NoMem)) else
    var node := s.files[d.file];
    if !CanResize(node, size) then (s, Broken(if size == 0 then FreedChain else SizeUnderflow)) else
    (s.(files := s.files[d.file := Sized(node, size)]), Ok(0))
  }

  function Step(s: Fs, op: Op): (r: (Fs, Reply))
    requires Inv(s)
    ensures Inv(r.0)
    ensures r.1.Fails? || r.1.Broken? ==> r.0 == s
  {
    match op
    case Open(name, flags) => OpenInv(s, name, flags); DoOpen(s, name, flags)
    case Write(fd, data) => WriteInv(s, fd, data); DoWrite(s, fd, data)
    case Read(fd, size) => ReadInv(s, fd, size); DoRead(s, fd, size)
    case Close(fd) => CloseInv(s, fd); DoClose(s, fd)
    case Delete(name) => DeleteInv(s, name); DoDelete(s, name)
    case Resize(fd, size) => ResizeInv(s, fd, size); DoResize(s, fd, size)
  }

  /** A run, cut short by the first operation that breaks. */
  function Run(s: Fs, ops: seq<Op>): (r: (Fs, seq<Reply>))
    requires Inv(s)
    ensures Inv(r.0)
    decreases |ops|
  {
    if ops == [] then (s, []) else
    var (s1, reply) := Step(s, ops[0]);
    if reply.Broken? then (s1, [reply]) else
    var (s2, replies) := Run(s1, ops[1..]);
    (s2, [reply] + replies)
  }

  // ---------------------------------------------------------------- counting slots

  lemma {:induction false} TallyUpdate(t: seq<Slot>, k: nat, slot: Slot, who: Option<nat>)
    requires k < |t|
    ensures Tally(t[k := slot], who) ==
            Tally(t, who) - (if Points(t[k], who) then 1 else 0) + (if Points(slot, who) then 1 else 0)
  {
    if k == 0 {
      assert t[0 := slot][1..] == t[1..];
    } else {
      assert t[k := slot][1..] == t[1..][k - 1 := slot];
      TallyUpdate(t[1..], k - 1, slot, who);
    }
  }

  lemma {:induction false} TallyGrow(t: seq<Slot>, n: nat, who: Option<nat>)
    ensures Tally(t + Frees(n), who) == Tally(t, who)
  {
    if t == [] {
      assert t + Frees(n) == Frees(n);
      TallyFrees(n, who);
    } else {
      assert (t + Frees(n))[1..] == t[1..] + Frees(n);
      TallyGrow(t[1..], n, who);
    }
  }

  lemma {:induction false} TallyFrees(n: nat, who: Option<nat>)
    ensures Tally(Frees(n), who) == 0
  {
    if n > 0 {
      assert Frees(n)[1..] == Frees(n - 1);
      TallyFrees(n - 1, who);
    }
  }

  /** Pigeonhole: a table with no free slot is counted full, and only such a table is. */
  lemma {:induction false} FullTable(t: seq<Slot>)
    ensures Occupied(t) <= |t|
    ensures Occupied(t) == |t| <==> FirstFree(t) == |t|
  {
    if t != [] { FullTable(t[1..]); }
  }

  /** get_fd always finds a slot: the scan cannot fail when the count says there is room. */
  lemma SlotExists(t: seq<Slot>, count: int)
    requires count == Occupied(t)
    ensures var g := Grown(t, count);
      && FirstFree(g) < |g|
      && t <= g
      && (forall who :: Tally(g, who) == Tally(t, who))
      && (FirstFree(g) == FirstFree(t))
  {
    FullTable(t);
    var g := Grown(t, count);
    forall who ensures Tally(g, who) == Tally(t, who) {
      if t == [] { TallyGrow(t, 10, who); assert t + Frees(10) == Frees(10); }
      else if count == |t| { TallyGrow(t, |t|, who); }
    }
    var k := FirstFree(g);
    if t == [] || count == |t| { assert g[|t|].Free?; }
  }

  // ---------------------------------------------------------------- the invariant is kept

  lemma {:induction false} TallyPositive(t: seq<Slot>, k: nat, who: Option<nat>)
    requires k < |t| && Points(t[k], who)
    ensures Tally(t, who) > 0
  {
    if k > 0 { TallyPositive(t[1..], k - 1, who); }
  }

  /** No descriptor refers to a freed file. */
  lemma NoDangling(s: Fs, fd: int)
    requires Inv(s) && IsValidFd(s, fd)
    ensures s.table[fd].desc.file < |s.files| && s.files[s.table[fd].desc.file].alive
    ensures s.files[s.table[fd].desc.file].refs > 0
  {
    var id := s.table[fd].desc.file;
    TallyPositive(s.table, fd, Some(id));
    assert NodeOk(s.files[id], Refs(s.table, id));
  }

  /** Replacing one file that stays listed or unlisted, and moving cursors. */
  lemma ReplaceInv(s: Fs, id: nat, node: Node, table: seq<Slot>)
    requires Inv(s) && id < |s.files|
    requires node.name == s.files[id].name && node.listed == s.files[id].listed
    requires NodeOk(node, s.files[id].refs)
    requires |table| == |s.table|
    requires forall k | 0 <= k < |table| ::
      if s.table[k].Used? then table[k].Used? && table[k].desc.file == s.table[k].desc.file else table[k].Free?
    ensures Inv(Fs(s.files[id := node], s.names, table, s.count))
  {
    var files := s.files[id := node];
    SamePointers(s.table, table, None);
    forall x | 0 <= x < |files| ensures NodeOk(files[x], Refs(table, x)) {
      SamePointers(s.table, table, Some(x));
      assert NodeOk(s.files[x], Refs(s.table, x));
    }
  }

  lemma {:induction false} SamePointers(t: seq<Slot>, u: seq<Slot>, who: Option<nat>)
    requires |t| == |u|
    requires forall k | 0 <= k < |t| ::
      if t[k].Used? then u[k].Used? && u[k].desc.file == t[k].desc.file else u[k].Free?
    ensures Tally(t, who) == Tally(u, who)
  {
    if t != [] {
      assert forall k | 0 <= k < |t| - 1 :: t[1..][k] == t[k + 1] && u[1..][k] == u[k + 1];
      SamePointers(t[1..], u[1..], who);
    }
  }

  lemma WriteInv(s: Fs, fd: int, data: seq<byte>)
    requires Inv(s)
    ensures Inv(DoWrite(s, fd, data).0)
  {
    if DoWrite(s, fd, data).1.Ok? {
      var d := s.table[fd].desc;
      var node := s.files[d.file];
      assert NodeOk(node, Refs(s.table, d.file));
      ReplaceInv(s, d.file, Written(node, d.offset, data), s.table[fd := MoveTo(d, d.offset + |data|)]);
    }
  }

  lemma ReadInv(s: Fs, fd: int, size: nat)
    requires Inv(s)
    ensures Inv(DoRead(s, fd, size).0)
  {
    if DoRead(s, fd, size).1.Bytes? {
      var d := s.table[fd].desc;
      var node := s.files[d.file];
      assert NodeOk(node, Refs(s.table, d.file));
      var data := Slice(node.content, d.offset, size);
      ReplaceInv(s, d.file, node, s.table[fd := MoveTo(d, d.offset + |data|)]);
      assert s.files[d.file := node] == s.files;
    }
  }

  lemma ResizeInv(s: Fs, fd: int, size: nat)
    requires Inv(s)
    ensures Inv(DoResize(s, fd, size).0)
  {
    if DoResize(s, fd, size).1.Ok? {
      var d := s.table[fd].desc;
      var node := s.files[d.file];
      assert NodeOk(node, Refs(s.table, d.file));
      ReplaceInv(s, d.file, Sized(node, size), s.table);
    }
  }

  /** Everything but the descriptor just created, for a file that is listed or already open. */
  ghost predicate Attachable(s: Fs, id: nat) {
    && id < |s.files| && TableOk(s.files, s.table, s.count) && NamesOk(s.files, s.names)
    && s.files[id].listed
    && forall x | 0 <= x < |s.files| :: NodeOk(s.files[x], Refs(s.table, x))
  }

  lemma AttachInv(s: Fs, id: nat, flags: bv32)
    requires Attachable(s, id)
    ensures Inv(Attach(s, id, flags).0)
  {
    SlotExists(s.table, s.count);
    var g := Grown(s.table, s.count);
    var fd := FirstFree(g);
    var slot := Used(Desc(id, 0, CanRead(flags), CanWrite(flags)));
    var out := Attach(s, id, flags).0;
    TallyUpdate(g, fd, slot, None);
    forall x | 0 <= x < |out.files| ensures NodeOk(out.files[x], Refs(out.table, x)) {
      TallyUpdate(g, fd, slot, Some(x));
      assert NodeOk(s.files[x], Refs(s.table, x));
      assert Tally(g, Some(x)) == Tally(s.table, Some(x));
    }
    forall k | 0 <= k < |out.table| && out.table[k].Used? ensures out.table[k].desc.file < |out.files| {
      if k != fd && k < |s.table| { assert out.table[k] == s.table[k]; }
    }
  }

  lemma {:induction false} NoRefs(t: seq<Slot>, id: nat)
    requires forall k | 0 <= k < |t| && t[k].Used? :: t[k].desc.file < id
    ensures Refs(t, id) == 0
  {
    if t != [] {
      assert forall k | 0 <= k < |t| - 1 :: t[1..][k] == t[k + 1];
      NoRefs(t[1..], id);
    }
  }

  lemma OpenInv(s: Fs, name: string, flags: bv32)
    requires Inv(s)
    ensures Inv(DoOpen(s, name, flags).0)
  {
    match Lookup(s.files, s.names, name)
    case Some(id) =>
      AttachInv(s, id, flags);
    case None =>
      if Permitted(flags, UFS_CREATE) {
        var id := |s.files|;
        var s1 := s.(files := s.files + [NewNode(name)], names := s.names + [id]);
        NoRefs(s.table, id);
        forall x | 0 <= x < |s1.files| ensures NodeOk(s1.files[x], Refs(s1.table, x)) {
          if x < id { assert NodeOk(s.files[x], Refs(s.table, x)); }
        }
        AttachInv(s1, id, flags);
      }
  }

  lemma CloseInv(s: Fs, fd: int)
    requires Inv(s)
    ensures Inv(DoClose(s, fd).0)
  {
    if IsValidFd(s, fd) {
      var out := DoClose(s, fd).0;
      NoDangling(s, fd);
      TallyUpdate(s.table, fd, Free, None);
      forall x | 0 <= x < |out.files| ensures NodeOk(out.files[x], Refs(out.table, x)) {
        TallyUpdate(s.table, fd, Free, Some(x));
        assert NodeOk(s.files[x], Refs(s.table, x));
      }
    }
  }

  ghost predicate Ascending(names: seq<nat>) {
    forall i, j | 0 <= i < j < |names| :: names[i] < names[j]
  }

  lemma AscendingTail(names: seq<nat>)
    requires Ascending(names) && names != []
    ensures Ascending(names[1..]) && forall x | x in names[1..] :: names[0] < x
  {
  }

  lemma {:induction false} WithoutMember(names: seq<nat>, id: nat, x: nat)
    requires Ascending(names)
    ensures x in Without(names, id) <==> x in names && x != id
  {
    if names != [] {
      AscendingTail(names);
      assert names == [names[0]] + names[1..];
      if names[0] != id { WithoutMember(names[1..], id, x); }
    }
  }

  lemma {:induction false} WithoutAscends(names: seq<nat>, id: nat)
    requires Ascending(names)
    ensures Ascending(Without(names, id))
  {
    if names != [] {
      AscendingTail(names);
      if names[0] != id {
        var w := Without(names[1..], id);
        WithoutAscends(names[1..], id);
        forall j | 0 <= j < |w| ensures names[0] < w[j] { WithoutMember(names[1..], id, w[j]); }
      }
    }
  }

  lemma WithoutOne(names: seq<nat>, id: nat)
    requires Ascending(names)
    ensures Ascending(Without(names, id))
    ensures forall x :: x in Without(names, id) <==> x in names && x != id
  {
    WithoutAscends(names, id);
    forall x ensures x in Without(names, id) <==> x in names && x != id { WithoutMember(names, id, x); }
  }

  lemma {:induction false} WithoutAt(names: seq<nat>, i: nat)
    requires Ascending(names) && i < |names|
    ensures Without(names, names[i]) == names[..i] + names[i + 1..]
  {
    if i > 0 {
      AscendingTail(names);
      WithoutAt(names[1..], i - 1);
      Rejoin(names, i);
    }
  }

  lemma Rejoin(names: seq<nat>, i: nat)
    requires 0 < i < |names|
    ensures [names[0]] + (names[1..][..i - 1] + names[1..][i..]) == names[..i] + names[i + 1..]
    ensures names[1..][i - 1] == names[i]
  {
  }

  lemma DistinctNames(files: seq<Node>, names: seq<nat>, x: nat, y: nat)
    requires NamesOk(files, names) && x in names && y in names && x != y
    ensures x < |files| && y < |files| && files[x].name != files[y].name
  {
    var i :| 0 <= i < |names| && names[i] == x;
    var j :| 0 <= j < |names| && names[j] == y;
  }

  lemma UnlinkNames(files: seq<Node>, names: seq<nat>, id: nat, node: Node)
    requires NamesOk(files, names) && id in names && id < |files|
    requires node.name == files[id].name && !node.listed
    ensures NamesOk(files[id := node], Without(names, id))
  {
    var out := Without(names, id);
    WithoutOne(names, id);
    assert forall i | 0 <= i < |out| :: out[i] in out;
    forall i, j | 0 <= i < j < |out| ensures files[id := node][out[i]].name != files[id := node][out[j]].name {
      assert out[i] in out && out[j] in out && out[i] < out[j];
      DistinctNames(files, names, out[i], out[j]);
    }
  }

  lemma DeleteInv(s: Fs, name: string)
    requires Inv(s)
    ensures Inv(DoDelete(s, name).0)
  {
    var hit := Lookup(s.files, s.names, name);
    if hit.Some? {
      var id := hit.value;
      var node := Settled(s.files[id].(listed := false));
      UnlinkNames(s.files, s.names, id, node);
      var files := s.files[id := node];
      forall x | 0 <= x < |files| ensures NodeOk(files[x], Refs(s.table, x)) {
        assert NodeOk(s.files[x], Refs(s.table, x));
      }
    }
  }
}
