/**
 * A file of userfs.c: a doubly linked chain of 512-byte blocks.
 *
 * Each cursor loop of ufs_write, ufs_read and ufs_resize is one method here, proved to
 * perform the recursion over pieces that module Chunks specifies.
 */
module FileChain {
  import opened Chunks

  /** How ufs_resize ends once its checks pass: normally, or in one of the two ways it goes wrong. */
  datatype ResizeEnd = Sized | SizeWraps | WalksFreed

  class Block {
    var memory: array<byte>
    var occupied: int
    var next: Block?
    var prev: Block?
    /** Set when the block is given back with free(). */
    ghost var freed: bool
    /** Its place in the chain. */
    ghost const at: nat

    constructor (ghost at: nat)
      ensures this.at == at
      ensures fresh(memory) && memory.Length == BLOCK_SIZE
      ensures Holds([]) && next == null && prev == null && !freed
    {
      memory := new byte[BLOCK_SIZE];
      occupied := 0;
      next, prev := null, null;
      freed := false;
      this.at := at;
    }

    /** The block holds data in the front of its 512 bytes. */
    ghost predicate Holds(data: seq<byte>)
      reads `memory, `occupied, memory
    {
      0 <= occupied <= BLOCK_SIZE == memory.Length && data == memory[..occupied]
    }

    /** One memcpy of the write loop. */
    method Fill(at: nat, data: seq<byte>, ghost held: seq<byte>)
      requires Holds(held) && at <= |held| && at + |data| <= BLOCK_SIZE
      modifies `occupied, memory
      ensures Holds(Patch(held, at, data))
    {
      ghost var before := memory[..];
      CopyInto(memory, at, data);
      occupied := Max(at + |data|, occupied);
      PatchPrefix(before, |held|, at, data);
      assert memory[..occupied] == memory[..][..occupied];
    }

    /** Move the first size bytes to new memory and drop the rest. */
    method Shrink(size: nat, ghost held: seq<byte>)
      requires Holds(held) && size <= |held|
      modifies `memory, `occupied
      ensures Holds(held[..size]) && fresh(memory)
    {
      var newMemory := new byte[BLOCK_SIZE];
      CopyInto(newMemory, 0, memory[..size]);
      assert newMemory[..size] == held[..size];
      memory, occupied := newMemory, size;
    }
  }

  /** memcpy of src to dst + at. */
  method CopyInto(dst: array<byte>, at: nat, src: seq<byte>)
    requires at + |src| <= dst.Length
    modifies dst
    ensures dst[..] == old(dst[..at]) + src + old(dst[at + |src|..])
  {
    forall k | 0 <= k < |src| { dst[at + k] := src[k]; }
  }

  class File {
    var blockList: Block?
    var lastBlock: Block?
    var refs: int
    const name: string
    var next: File?
    var prev: File?
    var bytesLeft: int
    var inList: bool

    /** The chain, and what each of its blocks holds. */
    ghost var blocks: seq<Block>
    ghost var chunks: seq<seq<byte>>
    ghost var Repr: set<object>
    /** Creation number of the file, and whether it has been given back with free(). */
    ghost const id: nat
    ghost var alive: bool

    constructor (name: string, ghost id: nat)
      ensures this.name == name && this.id == id && alive && inList
      ensures refs == 0 && bytesLeft == MAX_FILE_SIZE && next == null && prev == null
      ensures Valid() && blocks == [] && chunks == [] && Repr == {}
    {
      blockList, lastBlock := null, null;
      this.name := name;
      this.id := id;
      next, prev := null, null;
      refs, bytesLeft, inList := 0, MAX_FILE_SIZE, true;
      blocks, chunks, Repr := [], [], {};
      alive := true;
    }

    /** The blocks are live, and chunks is what they hold. */
    ghost predicate Stored()
      reads `blocks, `chunks, `Repr, blocks`memory, blocks`occupied, blocks`freed
      reads set b | b in blocks :: b.memory
    {
      && |chunks| == |blocks|
      && Private()
      && (forall i | 0 <= i < |blocks| ::
            && blocks[i] in Repr && blocks[i].memory in Repr && !blocks[i].freed
            && blocks[i].at == i && blocks[i].Holds(chunks[i]))
      && (forall i, j | 0 <= i < j < |blocks| :: blocks[i].memory != blocks[j].memory)
    }

    /** next, prev and the two ends of the chain agree with the order of bs. */
    ghost predicate Linked(bs: seq<Block>)
      reads `blockList, `lastBlock, bs`next, bs`prev
    {
      && (forall i {:trigger bs[i].next} | 0 <= i < |bs| - 1 :: bs[i].next == bs[i + 1])
      && (forall i {:trigger bs[i].prev} | 1 <= i < |bs| :: bs[i].prev == bs[i - 1])
      && (if bs == [] then blockList == null && lastBlock == null
          else
            && blockList == bs[0] && bs[0].prev == null
            && lastBlock == bs[|bs| - 1] && bs[|bs| - 1].next == null)
    }

    ghost predicate Chain()
      reads `blockList, `lastBlock, `blocks, `chunks, `Repr, blocks, set b | b in blocks :: b.memory
    {
      Stored() && Linked(blocks)
    }

    /** Only blocks and their memory belong to a file. */
    ghost predicate Private()
      reads `Repr
    {
      forall x | x in Repr :: x is Block || x is array<byte>
    }

    ghost predicate Owned()
      reads `blocks, `Repr, Repr
    {
      forall b | b in blocks :: b in Repr && b.memory in Repr
    }

    ghost predicate Valid()
      reads `blockList, `lastBlock, `blocks, `chunks, `Repr, Repr
    {
      Private() && Owned() && Chain() && Tight(chunks)
    }

    /** Account for a new block at the end of the chain. */
    ghost method Extend(b: Block)
      requires Stored() && b.Holds([]) && !b.freed && b.at == |blocks| && b.memory !in Repr
      modifies `blocks, `chunks, `Repr
      ensures Stored() && Repr == old(Repr) + {b, b.memory}
      ensures blocks == old(blocks) + [b] && chunks == old(chunks) + [[]]
    {
      blocks, chunks, Repr := blocks + [b], chunks + [[]], Repr + {b, b.memory};
    }

    ghost function Last(): set<Block>
      reads `lastBlock
    {
      if lastBlock == null then {} else {lastBlock}
    }

    /** Lines 528-537: b becomes the end of the chain. */
    method Attach(b: Block)
      requires Linked(blocks) && b !in blocks && b.next == null && b.prev == null
      modifies `blockList, `lastBlock, Last()`next, b`prev
      ensures Linked(blocks + [b])
    {
      if lastBlock == null {
        lastBlock, blockList := b, b;
      } else {
        lastBlock.next := b;
        b.prev := lastBlock;
        lastBlock := b;
      }
    }

    method CreateBlock() returns (b: Block)
      requires Chain()
      modifies `blockList, `lastBlock, `blocks, `chunks, `Repr, Last()`next
      ensures Chain() && Repr == old(Repr) + {b, b.memory}
      ensures blocks == old(blocks) + [b] && chunks == old(chunks) + [[]]
      ensures fresh(b) && fresh(b.memory)
    {
      b := new Block(|blocks|);
      Attach(b);
      Extend(b);
    }

    /** One memcpy of the write loop, into block number i. */
    method Fill(b: Block, ghost i: nat, at: nat, data: seq<byte>)
      requires Chain() && i < |blocks| && b == blocks[i]
      requires at <= |chunks[i]| && at + |data| <= BLOCK_SIZE
      modifies `chunks, b`occupied, b.memory
      ensures Chain()
      ensures chunks == old(chunks)[i := Patch(old(chunks)[i], at, data)]
    {
      hide Linked, Block.Holds, Chunks.Patch;
      b.Fill(at, data, chunks[i]);
      chunks := chunks[i := Patch(chunks[i], at, data)];
    }

    /** The block a cursor on piece i stands on. */
    ghost function At(i: nat): Block?
      reads `blocks
    {
      if i < |blocks| then blocks[i] else null
    }

    /** What a cursor on block number i sees. */
    lemma Cursor(i: nat)
      requires Chain() && i < |blocks|
      ensures blocks[i].next == At(i + 1)
      ensures |chunks| == |blocks| && blocks[i].occupied == |chunks[i]| <= BLOCK_SIZE
      ensures blocks[i] in Repr && blocks[i].memory in Repr
    {
    }

    /** Where the chain can be entered and extended. */
    lemma Ends()
      requires Chain()
      ensures blockList == At(0) && Last() <= Repr && |chunks| == |blocks|
      ensures this !in Repr && Private() && Owned()
      ensures lastBlock == if blocks == [] then null else blocks[|blocks| - 1]
    {
    }

    /** Lines 191-195: a block for the cursor to stand on, created when it ran off the chain. */
    method CursorBlock(block: Block?, ghost i: nat, offset: nat, ghost d: seq<byte>, ghost target: seq<seq<byte>>)
      returns (b: Block, o: nat)
      requires Chain() && Writing(chunks, i, offset, d, target) && d != [] && block == At(i)
      modifies `blockList, `lastBlock, `blocks, `chunks, `Repr, Last()`next
      ensures Chain() && Writing(chunks, i, o, d, target) && i < |blocks| && b == blocks[i]
      ensures if block == null then o == 0 else unchanged(`blocks)
      ensures forall x | x in Repr && x !in old(Repr) :: fresh(x)
    {
      if block == null {
        WritingCreate(chunks, offset, d, target);
        b := CreateBlock();
        o := 0;
      } else {
        b, o := block, offset;
      }
    }

    /** Lines 205-211: copy what fits of buf[from..] into block number i. */
    method PutHere(b: Block, ghost i: nat, offset: nat, buf: seq<byte>, from: nat, ghost target: seq<seq<byte>>)
      returns (writeBytes: nat)
      requires Chain() && from < |buf| && Writing(chunks, i, offset, buf[from..], target)
      requires i < |blocks| && b == blocks[i] && Min(offset, |chunks[i]|) < BLOCK_SIZE
      modifies `chunks, b`occupied, b.memory
      ensures Chain() && 0 < writeBytes <= |buf| - from
      ensures Writing(chunks, i + 1, 0, buf[from + writeBytes..], target)
    {
      var blockOffset := Min(offset, b.occupied);
      writeBytes := Min(|buf| - from, BLOCK_SIZE - blockOffset);
      ghost var d := buf[from..];
      WritingFill(chunks, i, offset, d, writeBytes, target);
      assert d[..writeBytes] == buf[from..from + writeBytes];
      assert d[writeBytes..] == buf[from + writeBytes..];
      Fill(b, i, blockOffset, buf[from..from + writeBytes]);
    }

    /** Lines 185-212: copy buf into the chain from the given cursor. */
    method WriteLoop(start: nat, buf: seq<byte>)
      requires Valid()
      modifies `blockList, `lastBlock, `blocks, `chunks, `Repr, Repr
      ensures Chain() && (forall x | x in Repr && x !in old(Repr) :: fresh(x))
      ensures chunks == WriteChunks(old(chunks), start, buf)
    {
      hide Chunks.Tight, Chunks.WriteChunks, Chunks.Writing, Chain;
      Ends();
      var bufOffset, offset := 0, start;
      var block := blockList;
      ghost var i, target := 0, WriteChunks(chunks, start, buf);
      WritingStarts(chunks, start, buf);
      assert buf[0..] == buf;
      while bufOffset < |buf|
        invariant Chain() && (forall x | x in Repr && x !in old(Repr) :: fresh(x))
        invariant 0 <= bufOffset <= |buf| && offset >= 0
        invariant Writing(chunks, i, offset, buf[bufOffset..], target) && block == At(i)
        decreases |buf| - bufOffset, |blocks| - i
      {
        Ends();
        var b;
        b, offset := CursorBlock(block, i, offset, buf[bufOffset..], target);
        Cursor(i);
        if Min(offset, b.occupied) == BLOCK_SIZE {
          WritingSkip(chunks, i, offset, buf[bufOffset..], target);
          offset := offset - BLOCK_SIZE;
        } else {
          var writeBytes := PutHere(b, i, offset, buf, bufOffset, target);
          bufOffset := bufOffset + writeBytes;
          offset := 0;
        }
        Cursor(i);
        block := b.next;
        i := i + 1;
      }
      assert buf[bufOffset..] == [];
      WritingEnds(chunks, i, offset, target);
    }

    /** Lines 185-217 and 221. The tail walk reads through a null head when there is nothing to walk. */
    method Write(start: nat, buf: seq<byte>) returns (nullHead: bool)
      requires Valid()
      modifies `blockList, `lastBlock, `blocks, `chunks, `Repr, Repr
      ensures forall x | x in Repr && x !in old(Repr) :: fresh(x)
      ensures nullHead <==> buf == [] && old(chunks) == []
      ensures Valid() && chunks == WriteChunks(old(chunks), start, buf)
    {
      hide Chunks.Tight, Chunks.WriteChunks, Chain;
      WriteRefines(chunks, start, buf);
      WriteNonEmpty(chunks, start, buf);
      WriteLoop(start, buf);
      Ends();
      var block := blockList;
      if block == null { return true; }
      ghost var i := 0;
      Cursor(0);
      while block.next != null
        invariant Chain() && i < |blocks| && block == blocks[i] && block.next == At(i + 1)
        modifies {}
        decreases |blocks| - i
      {
        block := block.next;
        i := i + 1;
        Cursor(i);
      }
      SetLast(block);
      return false;
    }

    method SetLast(b: Block)
      requires Chain() && blocks != [] && b == blocks[|blocks| - 1]
      modifies `lastBlock
      ensures Chain()
    {
      lastBlock := b;
    }

    /** Lines 265-266: one memcpy of the read loop. */
    method TakeHere(b: Block, ghost i: nat, at: nat, n: nat, buf: array<byte>, bytesRead: nat)
      requires Chain() && i < |blocks| && b == blocks[i] && at + n <= |chunks[i]|
      requires buf !in Repr && bytesRead + n <= buf.Length
      modifies buf
      ensures Chain()
      ensures buf[..bytesRead + n] == old(buf[..bytesRead]) + chunks[i][at..at + n]
      ensures buf[bytesRead + n..] == old(buf[bytesRead + n..])
    {
      CopyInto(buf, bytesRead, b.memory[at..at + n]);
    }

    /** Lines 245-271: the loop of ufs_read. */
    method Read(start: nat, buf: array<byte>, size: nat) returns (bytesRead: nat)
      requires Valid() && size <= buf.Length && buf !in Repr
      modifies buf
      ensures bytesRead <= size
      ensures buf[..bytesRead] == ReadChunks(chunks, start, size)
      ensures buf[bytesRead..] == old(buf[bytesRead..])
    {
      hide Chunks.Tight, Chunks.ReadChunks, Chunks.Reading, Chain;
      Ends();
      bytesRead := 0;
      var block, offset, left := blockList, start, size;
      ghost var i := 0;
      ghost var target := ReadChunks(chunks, start, size);
      ReadingStarts(chunks, start, size);
      assert buf[..0] == [];
      while block != null && left > 0
        invariant Chain() && i <= |blocks| && block == At(i)
        invariant offset >= 0 && left >= 0 && bytesRead + left == size
        invariant Reading(chunks, i, offset, left, buf[..bytesRead], target)
        invariant buf[bytesRead..] == old(buf[..])[bytesRead..]
        invariant unchanged(this) && Chain()
        decreases |blocks| - i
      {
        Cursor(i);
        var blockOffset := Min(offset, BLOCK_SIZE);
        if blockOffset == BLOCK_SIZE {
          ReadingSkip(chunks, i, offset, left, buf[..bytesRead], target);
          offset := offset - BLOCK_SIZE;
        } else {
          var bytesToRead := Min(block.occupied - blockOffset, left);
          if bytesToRead < 0 { break; }
          ReadingTake(chunks, i, offset, left, buf[..bytesRead], target, bytesToRead);
          TakeHere(block, i, blockOffset, bytesToRead, buf, bytesRead);
          bytesRead := bytesRead + bytesToRead;
          offset := 0;
          left := left - bytesToRead;
        }
        block := block.next;
        i := i + 1;
      }
      ReadingEnds(chunks, i, offset, left, buf[..bytesRead], target);
    }

    /** Lines 405-410: block number i keeps its first size bytes, in new memory. */
    method Shrink(b: Block, ghost i: nat, size: nat)
      requires Chain() && i < |blocks| && b == blocks[i] && size <= |chunks[i]|
      modifies `chunks, `Repr, b`memory, b`occupied
      ensures Chain() && Repr == old(Repr) + {b.memory} && fresh(b.memory)
      ensures chunks == old(chunks)[i := old(chunks)[i][..size]]
    {
      hide Linked, Block.Holds;
      b.Shrink(size, chunks[i]);
      Repr, chunks := Repr + {b.memory}, chunks[i := chunks[i][..size]];
    }

    /** Lines 392-414: size the chain; wraps is set where new_size underflows. */
    method ResizeLoopBlocks(newSize: nat) returns (wraps: bool, block: Block?, ghost i: nat)
      requires Valid()
      modifies `blockList, `lastBlock, `blocks, `chunks, `Repr, Repr
      ensures Chain() && (forall x | x in Repr && x !in old(Repr) :: fresh(x))
      ensures wraps <==> ResizeLoop(old(chunks), newSize).Wraps?
      ensures !wraps ==> i <= |chunks| && block == At(i) && Kept(chunks[..i]) == ResizeLoop(old(chunks), newSize)
      ensures newSize == 0 ==> !wraps && i == 0 && chunks == old(chunks)
      ensures |chunks| == |blocks|
      ensures newSize > 0 && !wraps ==> i > 0
    {
      hide Chunks.Tight, Chunks.ResizeLoop, Chunks.Resizing, Chain;
      ghost var target := ResizeLoop(chunks, newSize);
      Ends();
      ResizingStarts(chunks, newSize);
      var size := newSize;
      wraps, block, i := false, blockList, 0;
      while size > 0
        invariant Chain() && (forall x | x in Repr && x !in old(Repr) :: fresh(x))
        invariant size >= 0 && Resizing(chunks, i, size, target) && block == At(i)
        invariant i <= |blocks| && size <= newSize && (newSize == 0 ==> i == 0)
        invariant i == 0 ==> size == newSize && chunks == old(chunks)
        decreases size, |blocks| - i
      {
        Ends();
        var b;
        if block == null {
          ResizingCreate(chunks, size, target);
          b := CreateBlock();
          if size < BLOCK_SIZE { wraps := true; return; }
          size := size - BLOCK_SIZE;
        } else {
          b := block;
          Cursor(i);
          if size >= BLOCK_SIZE {
            ResizingPass(chunks, i, size, target);
            size := size - BLOCK_SIZE;
          } else if size < b.occupied {
            ResizingShrink(chunks, i, size, target);
            Shrink(b, i, size);
            size := 0;
          } else {
            ResizingPass(chunks, i, size, target);
          }
        }
        Cursor(i);
        block := b.next;
        i := i + 1;
      }
      Ends();
      ResizingEnds(chunks, i, target);
    }

    /** bs is a run of live, differently placed blocks that next walks from first to null. */
    ghost predicate Run(first: Block?, bs: seq<Block>)
      reads bs`next, bs`freed
    {
      && first == (if bs == [] then null else bs[0])
      && (forall i {:trigger bs[i].freed} | 0 <= i < |bs| :: !bs[i].freed)
      && (forall i {:trigger bs[i].at} | 0 <= i < |bs| :: bs[i].at == bs[0].at + i)
      && (forall i {:trigger bs[i].next} | 0 <= i < |bs| - 1 :: bs[i].next == bs[i + 1])
      && (bs != [] ==> bs[|bs| - 1].next == null)
    }

    /** Lines 422-428 and 562-569: free a run of blocks, each once. */
    method FreeRun(first: Block?, ghost bs: seq<Block>)
      requires Run(first, bs)
      modifies bs`freed
      ensures forall b | b in bs :: b.freed
    {
      var block := first;
      ghost var i := 0;
      while block != null
        invariant i <= |bs| && block == (if i < |bs| then bs[i] else null)
        invariant forall k | 0 <= k < i :: bs[k].freed
        invariant forall k | i <= k < |bs| :: !bs[k].freed
        invariant forall k {:trigger bs[k].next} | 0 <= k < |bs| - 1 :: bs[k].next == bs[k + 1]
        invariant bs != [] ==> bs[|bs| - 1].next == null
        decreases |bs| - i
      {
        ghost var copy := block;
        assert forall k {:trigger bs[k]} | i < k < |bs| :: bs[k].at != copy.at;
        block := block.next;
        copy.freed := true;
        i := i + 1;
      }
    }

    /** Any part of the chain can be freed from its first block on. */
    lemma SuffixRuns(i: nat)
      requires Chain() && i <= |blocks|
      ensures Run(At(i), blocks[i..])
      ensures forall b | b in blocks[i..] :: b in Repr && b !in blocks[..i]
    {
    }

    ghost function Before(i: nat): set<Block>
      reads `blocks
      requires 0 < i <= |blocks|
    {
      {blocks[i - 1]}
    }

    /** Lines 416-420: the chain ends before block number i. */
    method CutBefore(block: Block, ghost i: nat)
      requires Chain() && 0 < i < |blocks| && block == blocks[i]
      modifies `lastBlock, `blocks, `chunks, Before(i)`next
      ensures Chain() && blocks == old(blocks)[..i] && chunks == old(chunks)[..i]
    {
      hide Block.Holds;
      lastBlock := block.prev;
      block.prev.next := null;
      blocks, chunks := blocks[..i], chunks[..i];
    }

    /** Lines 430-437: the number of bytes held. */
    method Count() returns (size: nat)
      requires Chain()
      ensures size == |Join(chunks)|
    {
      hide Chain;
      Ends();
      size := 0;
      var block := blockList;
      ghost var i := 0;
      assert chunks[..0] == [];
      while block != null
        invariant Chain() && i <= |chunks| == |blocks| && block == At(i)
        invariant size == |Join(chunks[..i])|
        decreases |blocks| - i
      {
        Cursor(i);
        JoinPrefix(chunks, i);
        size := size + block.occupied;
        block := block.next;
        i := i + 1;
      }
      assert chunks[..i] == chunks;
    }

    /** Lines 389-439: after the checks of ufs_resize. */
    method Resize(newSize: nat) returns (end: ResizeEnd)
      requires Valid()
      modifies `blockList, `lastBlock, `blocks, `chunks, `Repr, `bytesLeft, Repr
      ensures forall x | x in Repr && x !in old(Repr) :: fresh(x)
      ensures end == SizeWraps <==> ResizeLoop(old(chunks), newSize).Wraps?
      ensures end == WalksFreed <==> newSize == 0 && old(chunks) != []
      ensures end == Sized ==>
        && Valid() && Kept(chunks) == ResizeLoop(old(chunks), newSize)
        && bytesLeft == MAX_FILE_SIZE - |Join(chunks)|
    {
      hide Chunks.Tight, Chunks.ResizeLoop, Chain;
      ghost var cs := chunks;
      var wraps, block;
      ghost var i;
      wraps, block, i := ResizeLoopBlocks(newSize);
      if wraps { return SizeWraps; }
      Ends();
      end := Trim(block, i);
      if end == Sized {
        ResizeRefines(cs, newSize);
        Ends();
        var size := Count();
        bytesLeft := MAX_FILE_SIZE - size;
      }
    }

    /** Lines 416-428: drop and free the blocks from the cursor on. Freeing the head leaves blockList dangling. */
    method Trim(block: Block?, ghost i: nat) returns (end: ResizeEnd)
      requires Chain() && i <= |blocks| && block == At(i)
      modifies `lastBlock, `blocks, `chunks, Repr
      ensures end == (if i == 0 && old(blocks) != [] then WalksFreed else Sized)
      ensures end == Sized ==> Chain() && chunks == old(chunks)[..i]
      ensures end == WalksFreed ==> blockList != null && blockList.freed
    {
      hide Chain, Run;
      SuffixRuns(i);
      Ends();
      ghost var dropped := blocks[i..];
      end := Sized;
      if block != null {
        HasPrevious(i);
        if block.prev != null {
          CutBefore(block, i);
        } else {
          end := WalksFreed;
        }
      }
      FreeRun(block, dropped);
    }

    lemma HasPrevious(i: nat)
      requires Chain() && i < |blocks|
      ensures blocks[i].prev == if i == 0 then null else blocks[i - 1]
      ensures i > 0 ==> blocks[i - 1] in Repr && blocks[i - 1] !in blocks[i..]
      ensures blockList == blocks[0] && (i == 0 ==> blockList in blocks[i..])
    {
    }

    /** Lines 562-572: free_file_memory. */
    method FreeMemory()
      requires Valid()
      modifies `blockList, `lastBlock, `blocks, `chunks, `Repr, `bytesLeft, Repr
      ensures Valid() && blocks == [] && chunks == [] && Repr == {} && bytesLeft == MAX_FILE_SIZE && Join(chunks) == []
      ensures forall b | b in old(blocks) :: b.freed
    {
      hide Chain, Run;
      Ends();
      SuffixRuns(0);
      assert blocks[0..] == blocks;
      FreeRun(blockList, blocks);
      Reset();
    }

    method Reset()
      modifies `blockList, `lastBlock, `blocks, `chunks, `Repr, `bytesLeft
      ensures Valid() && blocks == [] && chunks == [] && Repr == {} && bytesLeft == MAX_FILE_SIZE && Join(chunks) == []
    {
      bytesLeft := MAX_FILE_SIZE;
      blockList, lastBlock := null, null;
      blocks, chunks, Repr := [], [], {};
    }
  }
}
