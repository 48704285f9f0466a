/**
 * The file system of userfs.c: the name list, the descriptor table, and the files they reach.
 *
 * Every operation is proved to do to `view` what FlatFs.Step does, and to leave the linked
 * structures showing exactly that view.
 */
module UserFs {
  import opened Wrappers

  import opened Chunks
  import opened FileChain
  import Flat = FlatFs

  class FileDesc {
    const file: File
    const isOccupied: bool
    var offset: nat
    const canRead: bool
    const canWrite: bool
    /** Its place in the table. */
    ghost const slot: nat

    constructor (file: File, canRead: bool, canWrite: bool, ghost slot: nat)
      ensures this.file == file && isOccupied && offset == 0
      ensures this.canRead == canRead && this.canWrite == canWrite && this.slot == slot
    {
      this.file, isOccupied, offset := file, true, 0;
      this.canRead, this.canWrite, this.slot := canRead, canWrite, slot;
    }
  }

  class FileSystem {
    var fileList: File?
    var fileDescriptors: array?<FileDesc?>
    var fileDescriptorCount: int
    var fileDescriptorCapacity: int

    /** Every file ever created, in creation order; the listed ones; the descriptors; and the flat state shown. */
    ghost var arena: seq<File>
    ghost var listed: seq<File>
    ghost var descs: seq<FileDesc?>
    ghost var view: Flat.Fs
    ghost var Repr: set<object>

    static ghost predicate ShowsFile(f: File, node: Flat.Node)
      reads f`refs, f`bytesLeft, f`inList, f`alive, f`chunks
    {
      && f.name == node.name && f.refs == node.refs && f.bytesLeft == node.budget
      && f.inList == node.listed && f.alive == node.alive
      && Join(f.chunks) == node.content && |f.chunks| == node.blocks
    }

    /** Everything reachable is in Repr. */
    ghost predicate Contained()
      reads `arena, `listed, `fileDescriptors, `descs, `Repr, arena`Repr
    {
      && this in Repr
      && (forall i | 0 <= i < |arena| :: arena[i] in Repr && Inside(arena[i], Repr))
      && (forall f | f in listed :: f in Repr)
      && (fileDescriptors != null ==> fileDescriptors in Repr)
      && (forall d | d in descs :: d == null || d in Repr)
    }

    /** What was reachable still is, and what was added is in Repr. */
    twostate lemma StillContained(new f: File)
      requires old(Contained()) && old(Repr) <= Repr && f.Repr <= Repr
      requires forall g | g in arena && g != f ::
        if g in old(arena) then g.Repr == old(g.Repr) else g in Repr && g.Repr <= Repr
      requires f in Repr
      requires forall g | g in listed :: g in old(listed) || g in Repr
      requires fileDescriptors == old(fileDescriptors) || fileDescriptors in Repr
      requires forall d | d in descs :: d == null || d in old(descs) || d in Repr
      ensures Contained()
    {
      forall i | 0 <= i < |arena| ensures arena[i] in Repr && Inside(arena[i], Repr) {
        if arena[i] != f && arena[i] in old(arena) {
          var k :| 0 <= k < old(|arena|) && old(arena)[k] == arena[i];
          assert old(Inside(arena[k], Repr));
        }
      }
    }

    static ghost predicate Inside(f: File, R: set<object>)
      reads f`Repr
    {
      f.Repr <= R
    }

    /** The files are well formed, apart from one another, and show the files of the view. */
    static ghost predicate ShowsFiles(fs: seq<File>, files: seq<Flat.Node>)
      reads fs`refs, fs`bytesLeft, fs`inList, fs`alive
      reads fs`blockList, fs`lastBlock, fs`blocks, fs`chunks, fs`Repr, set f, x | f in fs && x in f.Repr :: x
    {
      && |fs| == |files|
      && (forall i | 0 <= i < |fs| :: fs[i].id == i && fs[i].Valid() && ShowsFile(fs[i], files[i]))
      && (forall i, j | 0 <= i < j < |fs| :: fs[i].Repr !! fs[j].Repr)
    }

    static ghost predicate ShowsSlot(fs: seq<File>, d: FileDesc?, slot: Flat.Slot, k: nat)
      reads d
    {
      if d == null then slot.Free? else
        && slot.Used? && d.isOccupied && d.slot == k
        && slot.desc == Flat.Desc(d.file.id, d.offset, d.canRead, d.canWrite)
        && d.file.id < |fs| && fs[d.file.id] == d.file
    }

    /** The descriptor array shows the table of the view. */
    ghost predicate ShowsTable(fs: seq<File>, table: seq<Flat.Slot>)
      reads `fileDescriptors, `fileDescriptorCapacity, fileDescriptors, `descs, descs
    {
      && fileDescriptorCapacity == |descs| == |table|
      && (if fileDescriptors == null then table == [] else table != [] && fileDescriptors[..] == descs)
      && forall k | 0 <= k < |table| :: ShowsSlot(fs, descs[k], table[k], k)
    }

    /** The name list runs through the listed files, oldest first. */
    ghost predicate ShowsNames(fs: seq<File>, names: seq<nat>)
      reads `fileList, `listed, listed`next, listed`prev
    {
      Named(fs, listed, names) && NameChain(listed)
    }

    static ghost predicate Named(fs: seq<File>, ls: seq<File>, names: seq<nat>) {
      |ls| == |names| && forall i | 0 <= i < |names| :: names[i] < |fs| && ls[i] == fs[names[i]]
    }

    static lemma NamedWithout(fs: seq<File>, ls: seq<File>, names: seq<nat>, i: nat)
      requires Named(fs, ls, names) && i < |names|
      ensures Named(fs, ls[..i] + ls[i + 1..], names[..i] + names[i + 1..])
    {
    }

    static lemma NamedMore(fs: seq<File>, ls: seq<File>, names: seq<nat>, f: File)
      requires Named(fs, ls, names)
      ensures Named(fs + [f], ls + [f], names + [|fs|])
    {
    }

    ghost predicate NameChain(fs: seq<File>)
      reads `fileList, fs`next, fs`prev
    {
      && (forall i {:trigger fs[i].next} | 0 <= i < |fs| - 1 :: fs[i].next == fs[i + 1])
      && (forall i {:trigger fs[i].prev} | 1 <= i < |fs| :: fs[i].prev == fs[i - 1])
      && (if fs == [] then fileList == null
          else fileList == fs[0] && fs[0].prev == null && fs[|fs| - 1].next == null)
    }

    ghost predicate Valid()
      reads this, Repr, arena`Repr
    {
      && Contained()
      && Flat.Inv(view)
      && fileDescriptorCount == view.count
      && ShowsFiles(arena, view.files)
      && ShowsTable(arena, view.table)
      && ShowsNames(arena, view.names)
    }

    constructor ()
      ensures Valid() && view == Flat.EMPTY && fresh(Repr)
    {
      fileList, fileDescriptors := null, null;
      fileDescriptorCount, fileDescriptorCapacity := 0, 0;
      arena, listed, descs, view, Repr := [], [], [], Flat.EMPTY, {this};
    }

    method IsValidFd(fd: int) returns (d: FileDesc?)
      requires Valid()
      ensures d != null <==> Flat.IsValidFd(view, fd)
      ensures d != null ==>
        && 0 <= fd < |descs| == |view.table| && d == descs[fd] && d in Repr
        && ShowsSlot(arena, d, view.table[fd], fd)
      ensures d != null ==> fileDescriptors != null && fd < fileDescriptors.Length
      ensures this in Repr && fileDescriptors in (if fileDescriptors == null then {null} else Repr)
      ensures d != null ==>
        && d.file in Repr && d.file.Repr <= Repr && d.file in arena && d.file.id < |view.files|
        && ShowsFile(d.file, view.files[d.file.id])
    {
      if fd < 0 || fd >= fileDescriptorCapacity { return null; }
      var filedesc := fileDescriptors[fd];
      assert ShowsSlot(arena, descs[fd], view.table[fd], fd);
      return if filedesc == null || !filedesc.isOccupied then null else filedesc;
    }

    /** Lines 185-217. */
    method WriteBlocks(file: File, offset: nat, buf: seq<byte>, ghost files: seq<Flat.Node>) returns (nullHead: bool)
      requires ShowsFiles(arena, files) && file in arena
      modifies file`blockList, file`lastBlock, file`blocks, file`chunks, file`Repr, file.Repr
      ensures nullHead <==> buf == [] && files[file.id].blocks == 0
      ensures forall x | x in file.Repr && x !in old(file.Repr) :: fresh(x)
      ensures var node := Flat.Written(files[file.id], offset, buf);
        ShowsFiles(arena, files[file.id := node.(budget := files[file.id].budget)])
    {
      hide Chunks.Tight, File.Owned, File.Chain, Chunks.WriteChunks, Chunks.Overwrite, Chunks.Join, Chunks.BlocksFor;
      WriteRefines(file.chunks, offset, buf);
      nullHead := file.Write(offset, buf);
    }

    /** Line 220. */
    method Charge(file: File, n: nat, ghost files: seq<Flat.Node>)
      requires ShowsFiles(arena, files) && file in arena
      modifies file`bytesLeft
      ensures ShowsFiles(arena, files[file.id := files[file.id].(budget := files[file.id].budget - n)])
    {
      hide Chunks.Tight, File.Owned, File.Chain, Chunks.Join;
      file.bytesLeft := file.bytesLeft - n;
    }

    /** The file part of ufs_write. */
    method WriteFile(file: File, offset: nat, buf: seq<byte>, ghost files: seq<Flat.Node>) returns (nullHead: bool)
      requires ShowsFiles(arena, files) && file in arena && file.id < |files|
      modifies file`blockList, file`lastBlock, file`blocks, file`chunks, file`Repr, file`bytesLeft, file.Repr
      ensures nullHead <==> buf == [] && files[file.id].blocks == 0
      ensures forall x | x in file.Repr && x !in old(file.Repr) :: fresh(x)
      ensures !nullHead ==> ShowsFiles(arena, files[file.id := Flat.Written(files[file.id], offset, buf)])
    {
      hide ShowsFiles, Chunks.Overwrite, Chunks.BlocksFor;
      Apart(files);
      nullHead := WriteBlocks(file, offset, buf, files);
      if !nullHead {
        ghost var next := files[file.id := Flat.Written(files[file.id], offset, buf).(budget := files[file.id].budget)];
        Charge(file, |buf|, next);
        assert next[file.id := Flat.Written(files[file.id], offset, buf)]
          == files[file.id := Flat.Written(files[file.id], offset, buf)];
      }
    }

    /** The blocks of the files are none of the objects the file system itself is made of. */
    lemma Apart(files: seq<Flat.Node>)
      requires ShowsFiles(arena, files)
      ensures forall f | f in arena :: this !in f.Repr && fileDescriptors !in f.Repr
      ensures forall f, g: File | f in arena :: g !in f.Repr
      ensures forall f, d: FileDesc | f in arena :: d !in f.Repr
      ensures |arena| == |files|
      ensures forall f | f in arena :: f.id < |arena| && arena[f.id] == f && ShowsFile(f, files[f.id])
    {
      hide File.Chain, Chunks.Tight;
    }

    method MoveCursor(d: FileDesc, ghost fd: int, offset: nat, ghost table: seq<Flat.Slot>)
      requires ShowsTable(arena, table) && 0 <= fd < |descs| && d == descs[fd]
      modifies d`offset
      ensures ShowsTable(arena, table[fd := Flat.MoveTo(table[fd].desc, offset)])
    {
      d.offset := offset;
    }

    /** The structures show the files, the table and the names of s. */
    ghost predicate Shows(s: Flat.Fs)
      reads `fileList, `fileDescriptors, `fileDescriptorCapacity, `arena, `listed, `descs
      reads fileDescriptors, descs, listed`next, listed`prev
      reads arena, set f, x | f in arena && x in f.Repr :: x
    {
      ShowsFiles(arena, s.files) && ShowsTable(arena, s.table) && ShowsNames(arena, s.names)
    }

    /** Lines 185-221. */
    method WriteThrough(filedesc: FileDesc, fd: nat, buf: seq<byte>, ghost s: Flat.Fs) returns (nullHead: bool)
      requires Shows(s) && fd < |descs| == |s.table| && filedesc == descs[fd] && filedesc.file in arena
      requires s.table[fd].Used? && filedesc.offset == s.table[fd].desc.offset && filedesc.file.id < |s.files|
      requires Contained() && filedesc.file in Repr
      modifies filedesc`offset, filedesc.file`blockList, filedesc.file`lastBlock, filedesc.file`blocks, `Repr
      modifies filedesc.file`chunks, filedesc.file`Repr, filedesc.file`bytesLeft, filedesc.file.Repr
      ensures if nullHead then Repr == old(Repr) else Contained() && Repr == old(Repr) + filedesc.file.Repr
      ensures nullHead <==> buf == [] && s.files[filedesc.file.id].blocks == 0
      ensures forall x | x in filedesc.file.Repr && x !in old(filedesc.file.Repr) :: fresh(x)
      ensures var (id, d) := (filedesc.file.id, s.table[fd].desc);
        !nullHead ==>
          Shows(s.(files := s.files[id := Flat.Written(s.files[id], d.offset, buf)],
                   table := s.table[fd := Flat.MoveTo(d, d.offset + |buf|)]))
    {
      hide ShowsFiles, ShowsTable, ShowsNames, Flat.Written, Contained;
      Apart(s.files);
      nullHead := WriteFile(filedesc.file, filedesc.offset, buf, s.files);
      if !nullHead {
        Apart(s.files[filedesc.file.id := Flat.Written(s.files[filedesc.file.id], filedesc.offset, buf)]);
        assert ShowsTable(arena, s.table) && ShowsNames(arena, s.names);
        MoveCursor(filedesc, fd, filedesc.offset + |buf|, s.table);
        Repr := Repr + filedesc.file.Repr;
        StillContained(filedesc.file);
      }
    }

    method Write(fd: int, buf: seq<byte>) returns (reply: Flat.Reply)
      requires Valid()
      modifies Repr
      ensures (view, reply) == Flat.Step(old(view), Flat.Write(fd, buf))
      ensures !reply.Broken? ==> Valid()
      ensures forall x | x in Repr && x !in old(Repr) :: fresh(x)
    {
      hide Contained, ShowsFiles, ShowsTable, ShowsNames, Flat.Inv, Flat.Written, Flat.Tally, Chunks.Join;
      var filedesc := IsValidFd(fd);
      if filedesc == null { return Flat.Fails(Flat.NoFile); }
      if !filedesc.canWrite { return Flat.Fails(Flat.NoPermission); }
      var file := filedesc.file;
      if |buf| > file.bytesLeft { return Flat.Fails(Flat.NoMem); }
      hide ShowsFile, ShowsSlot, Shows;
      AllShown(view);
      Apart(view.files);
      ghost var next := Flat.Step(view, Flat.Write(fd, buf)).0;
      var nullHead := WriteThrough(filedesc, fd, buf, view);
      if nullHead { return Flat.Broken(Flat.NullHead); }
      Parts(next);
      view := next;
      return Flat.Ok(|buf|);
    }

    lemma AllShown(s: Flat.Fs)
      requires ShowsFiles(arena, s.files) && ShowsTable(arena, s.table) && ShowsNames(arena, s.names)
      ensures Shows(s)
    {
      hide ShowsFiles, ShowsTable, ShowsNames;
    }

    lemma Parts(s: Flat.Fs)
      requires Shows(s)
      ensures ShowsFiles(arena, s.files) && ShowsTable(arena, s.table) && ShowsNames(arena, s.names)
    {
      hide ShowsFiles, ShowsTable, ShowsNames;
    }

    /** Lines 244-275. */
    method ReadThrough(filedesc: FileDesc, fd: nat, buf: array<byte>, size: nat, ghost s: Flat.Fs) returns (n: nat)
      requires Shows(s) && fd < |descs| == |s.table| && filedesc == descs[fd] && filedesc.file in arena
      requires s.table[fd].Used? && filedesc.offset == s.table[fd].desc.offset && filedesc.file.id < |s.files|
      requires size <= buf.Length && forall f | f in arena :: buf !in f.Repr
      modifies filedesc`offset, buf
      ensures n <= size && buf[n..] == old(buf[n..])
      ensures buf[..n] == Slice(s.files[filedesc.file.id].content, s.table[fd].desc.offset, size)
      ensures var d := s.table[fd].desc; Shows(s.(table := s.table[fd := Flat.MoveTo(d, d.offset + n)]))
    {
      hide ShowsFiles, ShowsTable, ShowsNames, Chunks.Slice;
      Apart(s.files);
      n := ReadFile(filedesc.file, filedesc.offset, buf, size, s.files);
      assert ShowsTable(arena, s.table) && ShowsNames(arena, s.names);
      MoveCursor(filedesc, fd, filedesc.offset + n, s.table);
      assert ShowsFiles(arena, s.files) && ShowsNames(arena, s.names);
    }

    method Read(fd: int, buf: array<byte>, size: nat) returns (reply: Flat.Reply)
      requires Valid() && size <= buf.Length && buf !in Repr
      modifies Repr, buf
      ensures (view, reply) == Flat.Step(old(view), Flat.Read(fd, size)) && Valid() && Repr == old(Repr)
      ensures if reply.Bytes? then
                && |reply.data| <= size && buf[..|reply.data|] == reply.data
                && buf[|reply.data|..] == old(buf[|reply.data|..])
              else buf[..] == old(buf[..])
    {
      hide Contained, ShowsFiles, ShowsTable, ShowsNames, Flat.Inv, Chunks.Slice;
      var filedesc := IsValidFd(fd);
      if filedesc == null { return Flat.Fails(Flat.NoFile); }
      if !filedesc.canRead { return Flat.Fails(Flat.NoPermission); }
      hide ShowsFile, ShowsSlot, Shows;
      AllShown(view);
      Apart(view.files);
      Outside(buf);
      ghost var next := Flat.Step(view, Flat.Read(fd, size)).0;
      var bytesRead := ReadThrough(filedesc, fd, buf, size, view);
      Parts(next);
      view := next;
      return Flat.Bytes(buf[..bytesRead]);
    }

    /** The file part of ufs_read. */
    method ReadFile(file: File, offset: nat, buf: array<byte>, size: nat, ghost files: seq<Flat.Node>) returns (n: nat)
      requires ShowsFiles(arena, files) && file in arena && size <= buf.Length
      requires forall f | f in arena :: buf !in f.Repr
      modifies buf
      ensures ShowsFiles(arena, files) && n <= size
      ensures buf[..n] == Slice(files[file.id].content, offset, size) && buf[n..] == old(buf[n..])
    {
      hide Chunks.Tight, File.Owned, File.Chain, Chunks.ReadChunks, Chunks.Slice, Chunks.Join;
      ReadRefines(file.chunks, offset, size);
      n := file.Read(offset, buf, size);
    }

    /** Lines 389-439. */
    method ResizeThrough(file: File, newSize: nat, ghost s: Flat.Fs) returns (end: ResizeEnd)
      requires Shows(s) && Contained() && file in arena && file in Repr && file.id < |s.files|
      modifies file`blockList, file`lastBlock, file`blocks, file`chunks, file`Repr, file`bytesLeft, file.Repr, `Repr
      ensures end == Sized ==> Contained() && Repr == old(Repr) + file.Repr
      ensures end != Sized ==> Repr == old(Repr)
      ensures end == Sized <==> Flat.CanResize(s.files[file.id], newSize)
      ensures end == WalksFreed <==> newSize == 0 && s.files[file.id].blocks != 0
      ensures forall x | x in file.Repr && x !in old(file.Repr) :: fresh(x)
      ensures end == Sized ==> Shows(s.(files := s.files[file.id := Flat.Sized(s.files[file.id], newSize)]))
    {
      hide ShowsFiles, ShowsTable, ShowsNames, Flat.Sized, Contained;
      Apart(s.files);
      end := ResizeFile(file, newSize, s.files);
      assert ShowsTable(arena, s.table) && ShowsNames(arena, s.names);
      if end == Sized {
        Repr := Repr + file.Repr;
        StillContained(file);
      }
    }

    method Resize(fd: int, newSize: nat) returns (reply: Flat.Reply)
      requires Valid()
      modifies Repr
      ensures (view, reply) == Flat.Step(old(view), Flat.Resize(fd, newSize))
      ensures !reply.Broken? ==> Valid()
      ensures forall x | x in Repr && x !in old(Repr) :: fresh(x)
    {
      hide Contained, ShowsFiles, ShowsTable, ShowsNames, Flat.Inv, Flat.Sized;
      var filedesc := IsValidFd(fd);
      if filedesc == null { return Flat.Fails(Flat.NoFile); }
      if !filedesc.canWrite { return Flat.Fails(Flat.NoPermission); }
      if newSize > MAX_FILE_SIZE { return Flat.Fails(Flat.NoMem); }
      hide ShowsFile, ShowsSlot, Shows;
      AllShown(view);
      Apart(view.files);
      ghost var next := Flat.Step(view, Flat.Resize(fd, newSize)).0;
      var file := filedesc.file;
      var end := ResizeThrough(file, newSize, view);
      if end == SizeWraps { return Flat.Broken(Flat.SizeUnderflow); }
      if end == WalksFreed { return Flat.Broken(Flat.FreedChain); }
      Parts(next);
      view := next;
      return Flat.Ok(0);
    }

    /** The file part of ufs_resize. */
    method ResizeFile(file: File, size: nat, ghost files: seq<Flat.Node>) returns (end: ResizeEnd)
      requires ShowsFiles(arena, files) && file in arena
      modifies file`blockList, file`lastBlock, file`blocks, file`chunks, file`Repr, file`bytesLeft, file.Repr
      ensures end == Sized <==> Flat.CanResize(files[file.id], size)
      ensures end == WalksFreed <==> size == 0 && files[file.id].blocks != 0
      ensures forall x | x in file.Repr && x !in old(file.Repr) :: fresh(x)
      ensures end == Sized ==> ShowsFiles(arena, files[file.id := Flat.Sized(files[file.id], size)])
    {
      hide Chunks.Tight, File.Owned, File.Chain, Chunks.ResizeLoop, Chunks.Truncate, Chunks.Join, Chunks.BlocksFor;
      ghost var cs := file.chunks;
      ResizeDefined(cs, size);
      if ResizeLoop(cs, size).Kept? { ResizeRefines(cs, size); }
      end := file.Resize(size);
    }

    /** Lines 286-296. */
    method Drop(file: File, fd: nat, ghost s: Flat.Fs)
      requires Shows(s) && fd < |s.table| && file in arena && file.id < |s.files|
      requires fileDescriptors != null && fd < fileDescriptors.Length
      modifies file`refs, file`alive, fileDescriptors, `descs
      modifies file`blockList, file`lastBlock, file`blocks, file`chunks, file`Repr, file`bytesLeft, file.Repr
      ensures file.Repr <= old(file.Repr) && |descs| == |old(descs)|
      ensures forall d | d in descs :: d == null || d in old(descs)
      ensures var node := s.files[file.id];
        Shows(s.(files := s.files[file.id := Flat.Settled(node.(refs := node.refs - 1))],
                 table := s.table[fd := Flat.Free]))
    {
      hide ShowsFiles, ShowsTable, ShowsNames, Flat.Settled;
      Apart(s.files);
      Release(file, s.files);
      assert ShowsTable(arena, s.table) && ShowsNames(arena, s.names);
      Apart(s.files[file.id := Flat.Settled(s.files[file.id].(refs := s.files[file.id].refs - 1))]);
      Slots(s.table);
      ClearSlot(fd, s.table);
    }

    lemma Slots(table: seq<Flat.Slot>)
      requires ShowsTable(arena, table)
      ensures |descs| == |table|
    {
    }

    method Close(fd: int) returns (reply: Flat.Reply)
      requires Valid()
      modifies Repr
      ensures (view, reply) == Flat.Step(old(view), Flat.Close(fd)) && Valid() && Repr == old(Repr)
    {
      hide Contained, ShowsFiles, ShowsTable, ShowsNames, Flat.Inv, Flat.Settled;
      var filedesc := IsValidFd(fd);
      if filedesc == null { return Flat.Fails(Flat.NoFile); }
      hide Shows, ShowsFile, ShowsSlot;
      AllShown(view);
      Apart(view.files);
      ghost var next := Flat.Step(view, Flat.Close(fd)).0;
      Drop(filedesc.file, fd, view);
      Parts(next);
      fileDescriptorCount := fileDescriptorCount - 1;
      view := next;
      StillContained(filedesc.file);
      return Flat.Ok(0);
    }

    method SetRefs(file: File, refs: int, ghost files: seq<Flat.Node>)
      requires ShowsFiles(arena, files) && file in arena
      modifies file`refs
      ensures ShowsFiles(arena, files[file.id := files[file.id].(refs := refs)])
      ensures file.refs == refs && file.inList == files[file.id].listed
    {
      hide Chunks.Tight, File.Owned, File.Chain, Chunks.Join;
      file.refs := refs;
    }

    /** free_file_memory and free. */
    method FreeFile(file: File, ghost files: seq<Flat.Node>)
      requires ShowsFiles(arena, files) && file in arena
      modifies file`alive
      modifies file`blockList, file`lastBlock, file`blocks, file`chunks, file`Repr, file`bytesLeft, file.Repr
      ensures file.Repr == {}
      ensures ShowsFiles(arena, files[file.id := Flat.Dead(files[file.id])])
    {
      hide Chunks.Tight, File.Owned, File.Chain, Chunks.Join;
      file.FreeMemory();
      file.alive := false;
    }

    /** Lines 287-293. */
    method Release(file: File, ghost files: seq<Flat.Node>)
      requires ShowsFiles(arena, files) && file in arena && file.id < |files| && file.refs == files[file.id].refs
      modifies file`refs, file`alive
      modifies file`blockList, file`lastBlock, file`blocks, file`chunks, file`Repr, file`bytesLeft, file.Repr
      ensures file.Repr <= old(file.Repr)
      ensures var node := files[file.id];
        ShowsFiles(arena, files[file.id := Flat.Settled(node.(refs := node.refs - 1))])
    {
      hide ShowsFiles;
      ghost var next := files[file.id := files[file.id].(refs := files[file.id].refs - 1)];
      SetRefs(file, file.refs - 1, files);
      if file.refs == 0 && !file.inList {
        FreeFile(file, next);
        assert next[file.id := Flat.Dead(next[file.id])] == files[file.id := Flat.Dead(next[file.id])];
      }
    }

    method ClearSlot(fd: int, ghost table: seq<Flat.Slot>)
      requires ShowsTable(arena, table) && 0 <= fd < |table| && fileDescriptors != null && fd < fileDescriptors.Length
      modifies fileDescriptors, `descs
      ensures ShowsTable(arena, table[fd := Flat.Free]) && descs == old(descs)[fd := null]
    {
      fileDescriptors[fd] := null;
      descs := descs[fd := null];
    }

    /** Lines 449-459: walk the name list. */
    method SearchFile(name: string) returns (f: File?, ghost i: nat)
      requires Valid()
      ensures this in Repr && forall g | g in listed :: g in Repr
      ensures var hit := Flat.Lookup(view.files, view.names, name);
        if f == null then hit.None? else
          && f in Repr && f.Repr <= Repr && f in arena && hit == Some(f.id) && f.id < |view.files|
          && i < |listed| == |view.names| && listed[i] == f && view.names[i] == f.id
    {
      hide ShowsTable, Flat.Inv, File.Valid;
      ListedFiles();
      f, i := fileList, 0;
      assert view.names[0..] == view.names;
      while f != null && f.name != name
        invariant i <= |listed| && f == (if i < |listed| then listed[i] else null)
        invariant Flat.Lookup(view.files, view.names[i..], name) == Flat.Lookup(view.files, view.names, name)
        decreases |listed| - i
      {
        assert view.names[i..][1..] == view.names[i + 1..];
        f := f.next;
        i := i + 1;
      }
    }

    /** The listed files, as the view names them. */
    lemma ListedFiles()
      requires Valid()
      ensures |listed| == |view.names|
      ensures forall i | 0 <= i < |view.names| ::
        && view.names[i] < |view.files| == |arena| && listed[i] == arena[view.names[i]]
        && listed[i].id == view.names[i] && listed[i].name == view.files[view.names[i]].name
    {
      hide ShowsTable, NameChain, File.Valid;
    }

    /** Lines 310-323: take number i out of the name list. */
    method Unlink(file: File, ghost i: nat)
      requires NameChain(listed) && i < |listed| && file == listed[i]
      requires forall j, k | 0 <= j < k < |listed| :: listed[j] != listed[k]
      modifies `fileList, `listed, listed`next, listed`prev
      ensures NameChain(listed) && listed == old(listed[..i] + listed[i + 1..])
    {
      var prevFile, nextFile := file.prev, file.next;
      assert prevFile == (if i == 0 then null else listed[i - 1]);
      assert nextFile == (if i + 1 == |listed| then null else listed[i + 1]);
      if prevFile == null {
        fileList := nextFile;
        if nextFile != null { nextFile.prev := null; }
      } else {
        prevFile.next := nextFile;
        if nextFile != null { nextFile.prev := prevFile; }
      }
      listed := listed[..i] + listed[i + 1..];
    }

    /** Lines 462-478: walk to the end of the name list and hang the new file there. */
    method AppendFile(newFile: File)
      requires NameChain(listed) && newFile !in listed && newFile.next == null && newFile.prev == null
      modifies `fileList, `listed, listed`next, newFile`prev
      ensures NameChain(listed) && listed == old(listed) + [newFile]
    {
      var f := fileList;
      if f == null {
        fileList := newFile;
      } else {
        ghost var i := 0;
        while f.next != null
          invariant i < |listed| && f == listed[i]
          modifies {}
          decreases |listed| - i
        {
          f := f.next;
          i := i + 1;
        }
        assert i == |listed| - 1;
        f.next := newFile;
        newFile.prev := f;
      }
      listed := listed + [newFile];
    }

    /** Lines 480-513: a free descriptor number, growing the table when it is full. */
    method GetFd(ghost table: seq<Flat.Slot>) returns (fd: int)
      requires ShowsTable(arena, table) && fileDescriptorCount == Flat.Occupied(table)
      modifies `fileDescriptors, `fileDescriptorCapacity, `fileDescriptorCount, `descs
      ensures ShowsTable(arena, Flat.Grown(table, old(fileDescriptorCount)))
      ensures fd == Flat.FirstFree(Flat.Grown(table, old(fileDescriptorCount)))
      ensures fileDescriptors != null && (fileDescriptors != old(fileDescriptors) ==> fresh(fileDescriptors))
      ensures fileDescriptorCount == old(fileDescriptorCount) + 1
      ensures forall k | 0 <= k < |descs| :: descs[k] == null || (k < old(|descs|) && descs[k] == old(descs)[k])
    {
      fd := -1;
      if fileDescriptors == null {
        fileDescriptorCapacity := 10;
        fileDescriptors := new FileDesc?[10](_ => null);
        descs := fileDescriptors[..];
        fd := 0;
      } else if fileDescriptorCount == fileDescriptorCapacity {
        fd := Double(table);
      } else {
        fd := Scan(table);
      }
      fileDescriptorCount := fileDescriptorCount + 1;
    }

    /** Lines 492-497. */
    method Double(ghost table: seq<Flat.Slot>) returns (fd: int)
      requires ShowsTable(arena, table) && fileDescriptors != null
      requires fileDescriptorCount == Flat.Occupied(table) == fileDescriptorCapacity
      modifies `fileDescriptors, `fileDescriptorCapacity, `descs
      ensures ShowsTable(arena, table + Flat.Frees(|table|)) && fd == Flat.FirstFree(table + Flat.Frees(|table|))
      ensures fileDescriptors != null && fresh(fileDescriptors)
      ensures descs == old(descs) + seq(|table|, _ => null)
    {
      Flat.SlotExists(table, fileDescriptorCount);
      Flat.FullTable(table);
      var old_ := fileDescriptors;
      var n := fileDescriptorCapacity;
      fileDescriptorCapacity := 2 * n;
      var newList := new FileDesc?[2 * n](_ => null);
      forall k | 0 <= k < n { newList[k] := old_[k]; }
      fileDescriptors := newList;
      descs := descs + seq(n, _ => null);
      assert newList[..] == descs;
      fd := fileDescriptorCount;
    }

    /** Lines 501-508. */
    method Scan(ghost table: seq<Flat.Slot>) returns (fd: int)
      requires ShowsTable(arena, table) && fileDescriptors != null
      requires fileDescriptorCount == Flat.Occupied(table) != fileDescriptorCapacity
      ensures fd == Flat.FirstFree(table)
    {
      Flat.FullTable(table);
      fd := -1;
      var i := 0;
      while i < fileDescriptorCapacity
        invariant 0 <= i <= |table| && forall j | 0 <= j < i :: table[j].Used?
      {
        assert ShowsSlot(arena, descs[i], table[i], i);
        if fileDescriptors[i] == null {
          fd := i;
          break;
        }
        i := i + 1;
      }
    }

    method FillSlot(fd: int, filedesc: FileDesc, ghost slot: Flat.Slot, ghost table: seq<Flat.Slot>)
      requires ShowsTable(arena, table) && 0 <= fd < |table| && fileDescriptors != null
      requires ShowsSlot(arena, filedesc, slot, fd)
      modifies fileDescriptors, `descs
      ensures ShowsTable(arena, table[fd := slot]) && descs == old(descs)[fd := filedesc]
    {
      fileDescriptors[fd] := filedesc;
      descs := descs[fd := filedesc];
    }

    /** Lines 310-330. */
    method Remove(file: File, ghost i: nat, ghost s: Flat.Fs)
      requires Shows(s) && Flat.Ascending(s.names) && file in arena && file.id < |s.files|
      requires i < |listed| == |s.names| && file == listed[i] && s.names[i] == file.id
      requires forall j, k | 0 <= j < k < |listed| :: listed[j] != listed[k]
      modifies `fileList, `listed, listed`next, listed`prev, file`inList, file`alive
      modifies file`blockList, file`lastBlock, file`blocks, file`chunks, file`Repr, file`bytesLeft, file.Repr
      ensures file.Repr <= old(file.Repr) && forall f | f in listed :: f in old(listed)
      ensures var node := s.files[file.id];
        Shows(s.(files := s.files[file.id := Flat.Settled(node.(listed := false))],
                 names := Flat.Without(s.names, file.id)))
    {
      hide ShowsFiles, ShowsTable, ShowsNames, Flat.Settled, Flat.Without;
      Apart(s.files);
      UnlinkName(file, i, s.names);
      assert ShowsFiles(arena, s.files) && ShowsTable(arena, s.table);
      Forget(file, s.files);
    }

    /** Lines 301-331. */
    method Delete(filename: string) returns (reply: Flat.Reply)
      requires Valid()
      modifies Repr
      ensures (view, reply) == Flat.Step(old(view), Flat.Delete(filename)) && Valid() && Repr == old(Repr)
    {
      hide Contained, ShowsFiles, ShowsTable, ShowsNames, ShowsFile, ShowsSlot, Shows, Inside;
      hide Flat.Inv, Flat.Settled, Flat.Without;
      var file;
      ghost var i;
      file, i := SearchFile(filename);
      if file == null { return Flat.Fails(Flat.NoFile); }
      ghost var next := Flat.Step(view, Flat.Delete(filename)).0;
      DistinctListed();
      AllShown(view);
      Apart(view.files);
      Remove(file, i, view);
      Parts(next);
      view := next;
      StillContained(file);
      return Flat.Ok(0);
    }

    method UnlinkName(file: File, ghost i: nat, ghost names: seq<nat>)
      requires ShowsNames(arena, names) && Flat.Ascending(names)
      requires i < |listed| == |names| && file == listed[i]
      requires forall j, k | 0 <= j < k < |listed| :: listed[j] != listed[k]
      modifies `fileList, `listed, listed`next, listed`prev
      ensures |names| == old(|listed|) && ShowsNames(arena, Flat.Without(names, names[i]))
      ensures forall f | f in listed :: f in old(listed)
    {
      hide NameChain, Named;
      Flat.WithoutAt(names, i);
      NamedWithout(arena, listed, names, i);
      Unlink(file, i);
    }

    lemma DistinctListed()
      requires Valid()
      ensures Flat.Ascending(view.names)
      ensures forall j, k | 0 <= j < k < |listed| :: listed[j] != listed[k]
    {
      hide ShowsTable, NameChain, File.Valid;
      ListedFiles();
      forall j, k | 0 <= j < k < |listed| ensures listed[j] != listed[k] {
        assert view.names[j] < view.names[k];
      }
    }

    /** Lines 325-330. */
    method Forget(file: File, ghost files: seq<Flat.Node>)
      requires ShowsFiles(arena, files) && file in arena && file.id < |files|
      modifies file`inList, file`alive
      modifies file`blockList, file`lastBlock, file`blocks, file`chunks, file`Repr, file`bytesLeft, file.Repr
      ensures file.Repr <= old(file.Repr)
      ensures ShowsFiles(arena, files[file.id := Flat.Settled(files[file.id].(listed := false))])
    {
      hide ShowsFiles;
      ghost var next := files[file.id := files[file.id].(listed := false)];
      SetUnlisted(file, files);
      if file.refs == 0 {
        FreeFile(file, next);
        assert next[file.id := Flat.Dead(next[file.id])] == files[file.id := Flat.Dead(next[file.id])];
      }
    }

    method SetUnlisted(file: File, ghost files: seq<Flat.Node>)
      requires ShowsFiles(arena, files) && file in arena
      modifies file`inList
      ensures ShowsFiles(arena, files[file.id := files[file.id].(listed := false)])
      ensures file.refs == files[file.id].refs
    {
      hide Chunks.Tight, File.Owned, File.Chain, Chunks.Join;
      file.inList := false;
    }

    /** Lines 118-158. */
    method Open(filename: string, flags: bv32) returns (reply: Flat.Reply)
      requires Valid()
      modifies Repr
      ensures (view, reply) == Flat.Step(old(view), Flat.Open(filename, flags)) && Valid()
      ensures forall x | x in Repr && x !in old(Repr) :: fresh(x)
    {
      hide ShowsFiles, ShowsTable, ShowsNames, ShowsSlot, Contained, Inside;
      hide Flat.Inv, Flat.Attach, Flat.TableOk, Flat.Lookup, Flat.Permitted;
      ghost var next := Flat.Step(view, Flat.Open(filename, flags)).0;
      Opens(view, filename, flags);
      Reached();
      var f;
      ghost var s;
      f, s := FindOrCreate(filename, flags);
      if f == null { return Flat.Fails(Flat.NoFile); }
      Reached();
      Apart(s.files);
      var fd := AttachFile(f, flags, s);
      Apart(next.files);
      view := next;
      return Flat.Ok(fd);
    }

    /** What is outside Repr is no block of any file. */
    lemma Outside(buf: array<byte>)
      requires Contained() && buf !in Repr
      ensures forall f | f in arena :: buf !in f.Repr
    {
      forall f | f in arena ensures buf !in f.Repr {
        var i :| 0 <= i < |arena| && arena[i] == f;
        assert Inside(arena[i], Repr);
      }
    }

    lemma Reached()
      requires Contained()
      ensures this in Repr && forall f | f in listed :: f in Repr
      ensures (fileDescriptors != null ==> fileDescriptors in Repr) && forall d | d in descs :: d == null || d in Repr
    {
    }

    /** The state in which the file to open is there, if it can be. */
    ghost function Prepared(s: Flat.Fs, filename: string): Flat.Fs
      requires Flat.Inv(s)
    {
      if Flat.Lookup(s.files, s.names, filename).Some? then s
      else s.(files := s.files + [Flat.NewNode(filename)], names := s.names + [|s.files|])
    }

    lemma Opens(s: Flat.Fs, filename: string, flags: bv32)
      requires Flat.Inv(s)
      ensures var (hit, t) := (Flat.Lookup(s.files, s.names, filename), Prepared(s, filename));
        var id := if hit.Some? then hit.value else |s.files|;
        && id < |t.files| && Flat.TableOk(t.files, t.table, t.count)
        && Flat.Step(s, Flat.Open(filename, flags))
          == if hit.None? && !Flat.Permitted(flags, Flat.UFS_CREATE) then (s, Flat.Fails(Flat.NoFile))
             else Flat.Attach(t, id, flags)
    {
      hide Flat.Attach, Flat.Permitted, Flat.Lookup, Flat.Tally;
    }

    /** Lines 120-144. */
    method FindOrCreate(filename: string, flags: bv32) returns (f: File?, ghost s: Flat.Fs)
      requires Valid()
      modifies `fileList, `arena, `listed, `Repr, listed`next
      ensures var hit := Flat.Lookup(view.files, view.names, filename);
        && s == Prepared(view, filename)
        && (f == null <==> hit.None? && !Flat.Permitted(flags, Flat.UFS_CREATE))
        && (f != null ==>
              && Contained() && ShowsFiles(arena, s.files) && ShowsTable(arena, s.table) && ShowsNames(arena, s.names)
              && f in arena && f in Repr && f.Repr <= Repr && f.id == (if hit.Some? then hit.value else |view.files|))
      ensures f == null ==> unchanged(this) && unchanged(old(listed))
      ensures old(Repr) <= Repr && forall x | x in Repr && x !in old(Repr) :: fresh(x)
    {
      hide ShowsFiles, ShowsTable, ShowsNames, ShowsFile, ShowsSlot, Contained, Inside, Flat.Lookup, Flat.Permitted;
      ghost var i;
      f, i := SearchFile(filename);
      s := Prepared(view, filename);
      if f == null && Flat.Permitted(flags, Flat.UFS_CREATE) { f := NewFile(filename); }
    }

    /** Lines 126-137: the file is created empty, at the end of the name list. */
    method NewFile(filename: string) returns (f: File)
      requires Valid()
      modifies `fileList, `arena, `listed, `Repr, listed`next
      ensures Contained() && fresh(f) && f.Repr == {} && Repr == old(Repr) + {f} && f in arena && f.id == |view.files|
      ensures ShowsFiles(arena, view.files + [Flat.NewNode(filename)])
      ensures ShowsTable(arena, view.table)
      ensures ShowsNames(arena, view.names + [|view.files|])
    {
      hide File.Valid, ShowsFiles, ShowsFile, ShowsTable, ShowsNames, ShowsSlot, Contained, Flat.Inv, Inside;
      ghost var fs := arena;
      f := new File(filename, |arena|);
      Apart(view.files);
      AddName(f, view.names);
      assert ShowsFiles(fs, view.files) && ShowsTable(fs, view.table);
      Repr := Repr + {f};
      StillContained(f);
      MoreFiles(fs, f, view.files);
      SlotsOfMore(fs, f, view.table);
    }

    /** Line 137: the file enters the name list. */
    method AddName(f: File, ghost names: seq<nat>)
      requires ShowsNames(arena, names) && f !in listed && f.next == null && f.prev == null
      modifies `fileList, `arena, `listed, listed`next, f`prev
      ensures arena == old(arena) + [f] && listed == old(listed) + [f]
      ensures ShowsNames(arena, names + [old(|arena|)])
    {
      hide NameChain, Named;
      NamedMore(arena, listed, names, f);
      AppendFile(f);
      arena := arena + [f];
    }

    lemma MoreFiles(fs: seq<File>, f: File, files: seq<Flat.Node>)
      requires ShowsFiles(fs, files) && f.Valid() && f.Repr == {} && f.id == |fs|
      requires f.refs == 0 && f.bytesLeft == MAX_FILE_SIZE && f.inList && f.alive && f.chunks == []
      ensures ShowsFiles(fs + [f], files + [Flat.NewNode(f.name)])
    {
      hide File.Valid;
    }

    lemma SlotsOfMore(fs: seq<File>, f: File, table: seq<Flat.Slot>)
      requires ShowsTable(fs, table)
      ensures ShowsTable(fs + [f], table)
    {
    }

    /** Lines 146-156. */
    method AttachFile(f: File, flags: bv32, ghost s: Flat.Fs) returns (fd: int)
      requires Contained() && ShowsFiles(arena, s.files) && ShowsTable(arena, s.table) && ShowsNames(arena, s.names)
      requires f in arena && f in Repr && f.Repr <= Repr && this in Repr
      requires (fileDescriptors != null ==> fileDescriptors in Repr) && forall d | d in descs :: d == null || d in Repr
      requires f.id < |s.files| && f.refs == s.files[f.id].refs
      requires fileDescriptorCount == s.count && Flat.TableOk(s.files, s.table, s.count)
      modifies Repr
      ensures var t := Flat.Attach(s, f.id, flags).0;
        && Contained() && ShowsFiles(arena, t.files) && ShowsTable(arena, t.table) && ShowsNames(arena, t.names)
        && fileDescriptorCount == t.count
      ensures Flat.Attach(s, f.id, flags).1 == Flat.Ok(fd)
      ensures view == old(view) && forall x | x in Repr && x !in old(Repr) :: fresh(x)
    {
      hide Contained, ShowsFiles, ShowsTable, ShowsNames, ShowsFile, ShowsSlot, Inside;
      hide Flat.Grown, Flat.FirstFree, Flat.Tally, Flat.Occupied;
      Apart(s.files);
      Flat.SlotExists(s.table, s.count);
      SetRefs(f, f.refs + 1, s.files);
      assert ShowsTable(arena, s.table) && ShowsNames(arena, s.names);
      Apart(s.files[f.id := s.files[f.id].(refs := f.refs)]);
      fd := NewDesc(f, flags, s.table);
      Repr := Repr + {fileDescriptors} + (set d | d in descs && d != null);
      StillContained(f);
    }

    /** Lines 149-156. */
    method NewDesc(f: File, flags: bv32, ghost table: seq<Flat.Slot>) returns (fd: int)
      requires ShowsTable(arena, table) && f.id < |arena| && arena[f.id] == f
      requires fileDescriptorCount == Flat.Occupied(table)
      requires Flat.FirstFree(Flat.Grown(table, fileDescriptorCount)) < |Flat.Grown(table, fileDescriptorCount)|
      modifies `fileDescriptors, `fileDescriptorCapacity, `fileDescriptorCount, `descs, fileDescriptors
      ensures fd == Flat.FirstFree(Flat.Grown(table, old(fileDescriptorCount)))
      ensures var slot := Flat.Used(Flat.Desc(f.id, 0, Flat.CanRead(flags), Flat.CanWrite(flags)));
        ShowsTable(arena, Flat.Grown(table, old(fileDescriptorCount))[fd := slot])
      ensures fileDescriptors != null && (fileDescriptors == old(fileDescriptors) || fresh(fileDescriptors))
      ensures fileDescriptorCount == old(fileDescriptorCount) + 1
      ensures forall d | d in descs :: d == null || d in old(descs) || fresh(d)
    {
      hide Flat.Grown, Flat.FirstFree, Flat.Tally;
      fd := GetFd(table);
      var filedesc := new FileDesc(f, Flat.CanRead(flags), Flat.CanWrite(flags), fd);
      FillSlot(fd, filedesc, Flat.Used(Flat.Desc(f.id, 0, Flat.CanRead(flags), Flat.CanWrite(flags))),
               Flat.Grown(table, old(fileDescriptorCount)));
    }
  }

  /** One call, chosen by op. */
  method Apply(fs: FileSystem, op: Flat.Op) returns (reply: Flat.Reply)
    requires fs.Valid()
    modifies fs.Repr
    ensures (fs.view, reply) == Flat.Step(old(fs.view), op)
    ensures !reply.Broken? ==> fs.Valid()
    ensures forall x | x in fs.Repr && x !in old(fs.Repr) :: fresh(x)
  {
    hide Flat.Inv, Flat.DoOpen, Flat.DoWrite, Flat.DoRead, Flat.DoClose, Flat.DoDelete, Flat.DoResize;
    match op
    case Open(name, flags) => reply := fs.Open(name, flags);
    case Write(fd, data) => reply := fs.Write(fd, data);
    case Read(fd, size) =>
      var buf := new byte[size];
      reply := fs.Read(fd, buf, size);
    case Close(fd) => reply := fs.Close(fd);
    case Delete(name) => reply := fs.Delete(name);
    case Resize(fd, size) => reply := fs.Resize(fd, size);
  }

  /**
   * A client making any calls in any order: the linked structures answer every one of them as the
   * flat file system does, up to the first call that leaves defined behaviour.
   */
  method Replay(fs: FileSystem, ops: seq<Flat.Op>) returns (replies: seq<Flat.Reply>)
    requires fs.Valid()
    modifies fs.Repr
    ensures (fs.view, replies) == Flat.Run(old(fs.view), ops)
    ensures (forall r | r in replies :: !r.Broken?) ==> fs.Valid()
    decreases |ops|
  {
    hide FileSystem.Valid, Flat.Inv, Flat.Step;
    if ops == [] { return []; }
    InView(fs);
    var reply := Apply(fs, ops[0]);
    if reply.Broken? { return [reply]; }
    var rest := Replay(fs, ops[1..]);
    assert reply in [reply] + rest && forall r | r in rest :: r in [reply] + rest;
    return [reply] + rest;
  }

  lemma InView(fs: FileSystem)
    requires fs.Valid()
    ensures Flat.Inv(fs.view) && fs in fs.Repr
  {
  }
}
