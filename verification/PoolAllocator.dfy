/** The memory pool of the JSON document: blocks are cut off the current chunk, the last one can
    grow in place (thirdparty/rapidjson/allocators.h:100-249). */
module PoolAllocator {
  import opened Core
  import opened Encodings

  /** Rounded up to a multiple of 8. */
  function Align(x: nat): (r: nat)
    ensures x <= r < x + 8 && r % 8 == 0
    ensures x > 0 ==> r > 0
  {
    (x + 7) / 8 * 8
  }

  /** A chunk and how much of it is in use. */
  class Chunk {
    const data: array<Byte>
    var size: nat

    constructor (capacity: nat)
      ensures fresh(data) && data.Length == capacity && size == 0
    {
      data := new Byte[capacity](_ => 0);
      size := 0;
    }
  }

  /** An address: a chunk and an offset in it. */
  datatype Ptr = Ptr(chunk: Chunk, offset: nat)

  /** A block that was handed out. */
  datatype Block = Block(ptr: Ptr, length: nat)

  predicate Disjoint(b: Block, c: Block) {
    b.ptr.chunk != c.ptr.chunk || b.ptr.offset + b.length <= c.ptr.offset || c.ptr.offset + c.length <= b.ptr.offset
  }

  predicate Fits(b: Block) { b.ptr.offset + b.length <= b.ptr.chunk.data.Length }

  /** The contents of a block. */
  ghost function Bytes(b: Block): (r: seq<Byte>)
    requires Fits(b)
    reads b.ptr.chunk.data
    ensures |r| == b.length
  {
    b.ptr.chunk.data[b.ptr.offset..b.ptr.offset + b.length]
  }

  /** A block and a longer one in its place have the same first bytes. */
  lemma SamePrefix(b: Block, c: Block, length: nat)
    requires Fits(b) && Fits(c) && b.ptr == c.ptr && length <= b.length && length <= c.length
    ensures Bytes(b)[..length] == Bytes(c)[..length]
  {
    FrontOfBlock(b, length);
    FrontOfBlock(c, length);
  }

  lemma FrontOfBlock(b: Block, length: nat)
    requires Fits(b) && length <= b.length
    ensures Bytes(b)[..length] == b.ptr.chunk.data[b.ptr.offset..b.ptr.offset + length]
  {
    assert forall k :: 0 <= k < length ==> Bytes(b)[k] == b.ptr.chunk.data[b.ptr.offset + k];
  }

  /** Chunks do not share memory. */
  predicate Separate(chunks: seq<Chunk>) {
    forall i, j :: 0 <= i < j < |chunks| ==> chunks[i] != chunks[j] && chunks[i].data != chunks[j].data
  }

  lemma SeparateOneMore(chunks: seq<Chunk>, chunk: Chunk)
    requires Separate(chunks) && chunk !in chunks && forall c :: c in chunks ==> c.data != chunk.data
    ensures Separate(chunks + [chunk])
  {
  }

  lemma SizeOfOneMore(chunks: seq<Chunk>, chunk: Chunk)
    ensures TotalSize(chunks + [chunk]) == TotalSize(chunks) + chunk.size
  {
    assert (chunks + [chunk])[..|chunks|] == chunks;
  }

  predicate AllDisjoint(blocks: seq<Block>) {
    forall i, j :: 0 <= i < j < |blocks| ==> Disjoint(blocks[i], blocks[j])
  }

  class MemoryPoolAllocator {
    // The chunks, the current one last.
    var chunks: seq<Chunk>
    const chunkCapacity: nat
    const userBuffer: Option<Chunk>

    // All blocks handed out since the last Clear.
    ghost var blocks: seq<Block>

    ghost predicate Valid()
      reads this, chunks, set c | c in chunks :: c.data
    {
      && ValidChunks()
      && AllInChunks(blocks)
      && AllDisjoint(blocks)
      && TotalLength(blocks) == TotalSize(chunks)
    }

    ghost predicate ValidChunks()
      reads this, chunks
    {
      && Separate(chunks)
      && (forall i :: 0 <= i < |chunks| ==> chunks[i].size <= chunks[i].data.Length && chunks[i].size % 8 == 0)
      && (userBuffer.Some? ==> chunks != [] && chunks[0] == userBuffer.value)
    }

    /** The block lies in the used part of one of the chunks, at a multiple of 8. */
    ghost predicate InChunk(b: Block)
      reads this, chunks
    {
      b.ptr.chunk in chunks && b.length > 0 && b.ptr.offset + b.length <= b.ptr.chunk.size && b.ptr.offset % 8 == 0
    }

    ghost predicate AllInChunks(bs: seq<Block>)
      reads this, chunks
    {
      forall i :: 0 <= i < |bs| ==> InChunk(bs[i])
    }

    constructor (chunkCapacity: nat)
      ensures Valid() && chunks == [] && blocks == [] && userBuffer == None && this.chunkCapacity == chunkCapacity
    {
      this.chunkCapacity := chunkCapacity;
      chunks, blocks, userBuffer := [], [], None;
    }

    /** Uses the buffer of the caller first. */
    constructor WithBuffer(buffer: Chunk, chunkCapacity: nat)
      requires buffer.size == 0
      ensures Valid() && chunks == [buffer] && blocks == [] && userBuffer == Some(buffer) && this.chunkCapacity == chunkCapacity
    {
      this.chunkCapacity := chunkCapacity;
      chunks, blocks, userBuffer := [buffer], [], Some(buffer);
    }

    method Capacity() returns (capacity: nat)
      requires Valid()
      ensures capacity == TotalCapacity(chunks)
    {
      capacity := 0;
      for i := 0 to |chunks|
        invariant capacity == TotalCapacity(chunks[..i])
      {
        capacity := capacity + chunks[i].data.Length;
        assert chunks[..i + 1][..i] == chunks[..i];
      }
      assert chunks[..|chunks|] == chunks;
    }

    /** The bytes in use never exceed the capacity, and are enough for all blocks. */
    method Size() returns (size: nat)
      requires Valid()
      ensures size == TotalSize(chunks) <= TotalCapacity(chunks)
    {
      size := 0;
      for i := 0 to |chunks|
        invariant size == TotalSize(chunks[..i]) <= TotalCapacity(chunks[..i])
      {
        size := size + chunks[i].size;
        assert chunks[..i + 1][..i] == chunks[..i];
      }
      assert chunks[..|chunks|] == chunks;
    }

    /** Forgets all blocks and all chunks but the buffer of the caller. */
    method Clear()
      requires Valid()
      modifies this`chunks, this`blocks, chunks
      ensures Valid() && blocks == []
      ensures chunks == if userBuffer.Some? then [userBuffer.value] else []
      ensures TotalSize(chunks) == 0
    {
      while chunks != [] && !(userBuffer.Some? && chunks[|chunks| - 1] == userBuffer.value)
        invariant ValidChunks() && chunks <= old(chunks)
        decreases |chunks|
      {
        chunks := chunks[..|chunks| - 1];
      }
      blocks := [];
      if chunks != [] {
        chunks[|chunks| - 1].size := 0;
      }
    }

    /** A new chunk, if the base allocator delivers one. */
    method AddChunk(capacity: nat, available: bool) returns (ok: bool)
      requires Valid()
      modifies this`chunks
      ensures ok == available && Valid()
      ensures if ok then |chunks| == |old(chunks)| + 1 && chunks[..|chunks| - 1] == old(chunks)
                         && fresh(chunks[|chunks| - 1]) && fresh(chunks[|chunks| - 1].data)
                         && chunks[|chunks| - 1].data.Length == capacity && chunks[|chunks| - 1].size == 0
              else chunks == old(chunks)
    {
      ok := available;
      if available {
        hide TotalLength, TotalSize, AllDisjoint, AllInChunks, Separate;
        var chunk := new Chunk(capacity);
        PushChunk(chunk);
      }
    }

    method PushChunk(chunk: Chunk)
      requires Valid() && chunk !in chunks && chunk.size == 0 && forall c :: c in chunks ==> c.data != chunk.data
      modifies this`chunks
      ensures Valid() && chunks == old(chunks) + [chunk]
    {
      hide TotalLength, TotalSize, AllDisjoint, Separate;
      SeparateOneMore(chunks, chunk);
      SizeOfOneMore(chunks, chunk);
      chunks := chunks + [chunk];
      forall k | 0 <= k < |blocks| ensures InChunk(blocks[k]) {
        assert old(InChunk(blocks[k]));
      }
    }

    /** Cuts `increment` bytes off the current chunk. */
    method Bump(increment: nat, ghost bs: seq<Block>)
      requires AllInChunks(bs)
      requires ValidChunks() && HasRoom(increment) && increment % 8 == 0
      modifies chunks
      ensures AllInChunks(bs)
      ensures ValidChunks() && TotalSize(chunks) == old(TotalSize(chunks)) + increment
      ensures chunks[|chunks| - 1].size == old(chunks[|chunks| - 1].size) + increment
    {
      var head := chunks[|chunks| - 1];
      assert head !in chunks[..|chunks| - 1];
      assert forall k :: 0 <= k < |bs| ==> InChunk(bs[k]);
      head.size := head.size + increment;
      hide TotalSize, Separate;
      forall k | 0 <= k < |bs| ensures InChunk(bs[k]) { assert old(InChunk(bs[k])); }
    }

    /** The current chunk has `increment` unused bytes. */
    predicate HasRoom(increment: nat)
      reads this, chunks
    {
      chunks != [] && chunks[|chunks| - 1].size + increment <= chunks[|chunks| - 1].data.Length
    }

    /** A new block of the size asked for, rounded up, in an unused part of a chunk; None for size 0
        and if there is no memory. */
    method Malloc(size: nat, available: bool) returns (p: Option<Ptr>)
      requires Valid()
      modifies this`chunks, this`blocks, chunks
      ensures Valid()
      ensures blocks == if p.Some? then old(blocks) + [Block(p.value, Align(size))] else old(blocks)
      ensures p == None <==> size == 0 || (!available && !old(HasRoom(Align(size))))
      ensures p == None || old(HasRoom(Align(size))) ==> chunks == old(chunks)
      ensures p.Some? ==> chunks != [] && p.value.chunk == chunks[|chunks| - 1] && p.value.offset % 8 == 0
      ensures p.Some? ==> p.value.chunk in old(chunks) || (fresh(p.value.chunk) && fresh(p.value.chunk.data))
      ensures p.Some? && old(HasRoom(Align(size))) ==> p.value.offset == old(chunks[|chunks| - 1].size)
      ensures p.Some? && !old(HasRoom(Align(size))) ==> IsNewChunk(old(chunks), p.value, Align(size))
    {
      hide TotalSize, TotalLength, Separate, AllDisjoint, InChunk, AllInChunks;
      if size == 0 { return None; }
      var aligned := Align(size);
      if !HasRoom(aligned) {
        var ok := AddChunk(if chunkCapacity > aligned then chunkCapacity else aligned, available);
        if !ok { return None; }
      }
      p := CutOff(aligned);
    }

    /** The address is that of a new chunk: as large as chunks are, or as the block if that is larger. */
    ghost predicate IsNewChunk(before: seq<Chunk>, p: Ptr, aligned: nat)
      reads this
    {
      && chunks == before + [p.chunk] && p.offset == 0
      && p.chunk.data.Length == if chunkCapacity > aligned then chunkCapacity else aligned
    }

    method CutOff(aligned: nat) returns (p: Option<Ptr>)
      requires Valid() && HasRoom(aligned) && aligned > 0 && aligned % 8 == 0
      modifies this`blocks, chunks
      ensures Valid() && p.Some?
      ensures blocks == old(blocks) + [Block(p.value, aligned)] && p.value.chunk == chunks[|chunks| - 1]
      ensures p.value.offset % 8 == 0 && p.value.offset == old(chunks[|chunks| - 1].size)
    {
      hide TotalSize, TotalLength, Separate;
      var head := chunks[|chunks| - 1];
      ghost var b := Block(Ptr(head, head.size), aligned);
      p := Some(Ptr(head, head.size));
      forall k | 0 <= k < |blocks| ensures Disjoint(blocks[k], b) {
        assert InChunk(blocks[k]);
      }
      Bump(aligned, blocks);
      LengthOfOneMore(blocks, b);
      blocks := blocks + [b];
      assert InChunk(b);
    }

    /** The block ends where the used part of the current chunk ends. */
    predicate IsLast(p: Ptr, length: nat)
      reads this, chunks
    {
      chunks != [] && p.chunk == chunks[|chunks| - 1] && p.offset + length == p.chunk.size
    }

    lemma GrownIsDisjoint(i: nat, grown: Block)
      requires Valid() && i < |blocks| && IsLast(blocks[i].ptr, blocks[i].length) && grown.ptr == blocks[i].ptr
      ensures AllDisjoint(blocks[i := grown])
    {
      hide TotalSize, TotalLength, Separate;
      forall k | 0 <= k < |blocks| && k != i ensures Disjoint(blocks[k], grown) && Disjoint(grown, blocks[k]) {
        assert InChunk(blocks[k]) && InChunk(blocks[i]);
        assert if k < i then Disjoint(blocks[k], blocks[i]) else Disjoint(blocks[i], blocks[k]);
      }
    }

    /** Makes the last block of the current chunk longer. */
    method GrowInPlace(ghost i: nat, increment: nat)
      requires Valid() && i < |blocks| && IsLast(blocks[i].ptr, blocks[i].length) && HasRoom(increment)
      requires increment % 8 == 0
      modifies this`blocks, chunks
      ensures Valid() && blocks == old(blocks)[i := Block(old(blocks)[i].ptr, old(blocks)[i].length + increment)]
    {
      hide TotalSize, TotalLength, AllDisjoint, Separate;
      ghost var b := blocks[i];
      ghost var grown := Block(b.ptr, b.length + increment);
      LengthAfterUpdate(blocks, i, grown);
      GrownIsDisjoint(i, grown);
      Bump(increment, blocks);
      assert InChunk(grown);
      assert AllInChunks(blocks[i := grown]);
      hide AllInChunks, InChunk;
      blocks := blocks[i := grown];
    }

    /** Copies the contents of one block to the front of another. */
    method CopyBlock(from: Ptr, to: Ptr, length: nat)
      requires from.offset + length <= from.chunk.data.Length && to.offset + length <= to.chunk.data.Length
      requires from.chunk.data != to.chunk.data || from.offset + length <= to.offset || to.offset + length <= from.offset
      modifies to.chunk.data
      ensures to.chunk.data[to.offset..to.offset + length] == old(from.chunk.data[from.offset..from.offset + length])
      ensures forall k :: 0 <= k < to.chunk.data.Length && !(to.offset <= k < to.offset + length) ==>
                to.chunk.data[k] == old(to.chunk.data[k])
    {
      ghost var bytes := from.chunk.data[from.offset..from.offset + length];
      for n := 0 to length
        invariant to.chunk.data[to.offset..to.offset + n] == bytes[..n]
        invariant from.chunk.data[from.offset..from.offset + length] == bytes
        invariant forall k :: 0 <= k < to.chunk.data.Length && !(to.offset <= k < to.offset + n) ==>
                    to.chunk.data[k] == old(to.chunk.data[k])
      {
        assert from.chunk.data[from.offset + n] == bytes[n];
        to.chunk.data[to.offset + n] := from.chunk.data[from.offset + n];
        assert to.chunk.data[to.offset..to.offset + n + 1] == to.chunk.data[to.offset..to.offset + n] + [bytes[n]];
      }
    }

    /** Every block fits its chunk, so its contents are defined. */
    lemma BlocksFit()
      requires Valid()
      ensures forall k :: 0 <= k < |blocks| ==> Fits(blocks[k])
    {
      forall k | 0 <= k < |blocks| ensures Fits(blocks[k]) { assert InChunk(blocks[k]); }
    }

    /** A block of the first length can become one of the second without being moved. */
    predicate GrowsInPlace(p: Ptr, oldLength: nat, newLength: nat)
      reads this, chunks
    {
      oldLength < newLength && IsLast(p, oldLength) && HasRoom(newLength - oldLength)
    }

    /** Resizes block `i`: it stays where it is if it is long enough or can grow in place, otherwise
        its contents are copied to a new block and it is not reused. No block changes its contents. */
    method Realloc(original: Option<Ptr>, originalSize: nat, newSize: nat, available: bool, ghost i: nat)
      returns (p: Option<Ptr>, ghost j: nat)
      requires Valid()
      requires original.Some? ==> i < |blocks| && blocks[i].ptr == original.value && Align(originalSize) <= blocks[i].length
      modifies this`chunks, this`blocks, chunks, set c | c in chunks :: c.data
      ensures Valid()
      ensures p == None ==> blocks == old(blocks) && (newSize == 0 || !available)
      ensures newSize == 0 ==> p == None
      ensures p.Some? ==> j < |blocks| && blocks[j].ptr == p.value && blocks[j].length >= Align(newSize)
      ensures p.Some? ==> p.value.offset % 8 == 0
      ensures p.Some? ==>
                if original == None then blocks == old(blocks) + [Block(p.value, Align(newSize))]
                else if Align(newSize) <= Align(originalSize) then p == original && blocks == old(blocks)
                else if old(GrowsInPlace(original.value, Align(originalSize), Align(newSize)))
                then p == original && blocks == old(blocks)[i := Block(original.value, Align(newSize))]
                else blocks == old(blocks) + [Block(p.value, Align(newSize))]
      ensures forall k :: 0 <= k < |old(blocks)| ==> old(Fits(blocks[k])) && Bytes(old(blocks)[k]) == old(Bytes(blocks[k]))
      ensures original.Some? && p.Some? ==>
                Fits(blocks[j]) && Align(originalSize) <= blocks[j].length
                && Bytes(blocks[j])[..Align(originalSize)] == old(Bytes(blocks[i]))[..Align(originalSize)]
    {
      hide TotalSize, TotalLength, Separate;
      BlocksFit();
      j := i;
      if original == None {
        p := Malloc(newSize, available);
        if p.Some? { j := |blocks| - 1; }
        return;
      }
      if newSize == 0 { return None, j; }
      var oldLength, newLength := Align(originalSize), Align(newSize);
      if oldLength >= newLength { return original, j; }
      var increment := newLength - oldLength;
      if IsLast(original.value, oldLength) && HasRoom(increment) {
        assert InChunk(blocks[i]);
        GrowInPlace(i, increment);
        BlocksFit();
        SamePrefix(old(blocks)[i], blocks[i], oldLength);
        return original, j;
      }
      p, j := Move(original.value, oldLength, newSize, available, i);
    }

    method Move(original: Ptr, oldLength: nat, newSize: nat, available: bool, ghost i: nat)
      returns (p: Option<Ptr>, ghost j: nat)
      requires Valid() && newSize > 0 && i < |blocks| && blocks[i].ptr == original && oldLength <= blocks[i].length
      requires oldLength < Align(newSize)
      modifies this`chunks, this`blocks, chunks, set c | c in chunks :: c.data
      ensures Valid()
      ensures p == None ==> !available && blocks == old(blocks)
      ensures p.Some? ==> j == |old(blocks)| && blocks == old(blocks) + [Block(p.value, Align(newSize))]
      ensures forall k :: 0 <= k < |old(blocks)| ==> old(Fits(blocks[k])) && Bytes(old(blocks)[k]) == old(Bytes(blocks[k]))
      ensures p.Some? ==> Fits(blocks[j]) && Bytes(blocks[j])[..oldLength] == old(Bytes(blocks[i]))[..oldLength]
    {
      hide TotalSize, TotalLength, Separate, AllDisjoint, InChunk, AllInChunks;
      BlocksFit();
      j := |blocks|;
      ghost var before := blocks;
      p := MallocApart(newSize, available);
      if p == None { return; }
      CopyInto(before, blocks[j], i, original, p.value, oldLength);
    }

    /** A new block, which overlaps none of those before it. */
    method MallocApart(size: nat, available: bool) returns (p: Option<Ptr>)
      requires Valid() && size > 0
      modifies this`chunks, this`blocks, chunks
      ensures Valid()
      ensures p == None ==> !available && blocks == old(blocks)
      ensures p.Some? ==> p.value.chunk in old(chunks) || (fresh(p.value.chunk) && fresh(p.value.chunk.data))
      ensures p.Some? ==>
                var b := Block(p.value, Align(size));
                && blocks == old(blocks) + [b] && Fits(b)
                && (forall k :: 0 <= k < |old(blocks)| ==> Fits(old(blocks)[k]) && Disjoint(old(blocks)[k], b))
                && (forall k :: 0 <= k < |old(blocks)| && old(blocks)[k].ptr.chunk != b.ptr.chunk ==>
                      old(blocks)[k].ptr.chunk.data != b.ptr.chunk.data)
    {
      hide TotalSize, TotalLength, Separate, AllDisjoint, InChunk, AllInChunks;
      ghost var before := blocks;
      p := Malloc(size, available);
      if p.Some? { LastIsApart(before, blocks[|before|]); }
    }

    /** The last block overlaps none of those before it, and only blocks of one chunk share memory. */
    lemma LastIsApart(before: seq<Block>, b: Block)
      requires Valid() && blocks == before + [b]
      ensures Fits(b) && forall k :: 0 <= k < |before| ==> Fits(before[k]) && Disjoint(before[k], b)
      ensures forall k :: 0 <= k < |before| && before[k].ptr.chunk != b.ptr.chunk ==>
                before[k].ptr.chunk.data != b.ptr.chunk.data
    {
      hide TotalSize, TotalLength;
      var j := |before|;
      assert blocks[j] == b && InChunk(blocks[j]);
      forall k | 0 <= k < |before|
        ensures Fits(before[k]) && Disjoint(before[k], b)
        ensures before[k].ptr.chunk != b.ptr.chunk ==> before[k].ptr.chunk.data != b.ptr.chunk.data
      {
        assert blocks[k] == before[k] && InChunk(blocks[k]) && Disjoint(blocks[k], blocks[j]);
      }
    }

    /** Copies to the front of block `b`, which overlaps none of the other blocks. */
    method CopyInto(ghost before: seq<Block>, ghost b: Block, ghost i: nat, from: Ptr, to: Ptr, length: nat)
      requires (forall k :: 0 <= k < |before| ==> Fits(before[k]) && Disjoint(before[k], b)) && Fits(b)
      requires forall k :: 0 <= k < |before| && before[k].ptr.chunk != b.ptr.chunk ==>
                 before[k].ptr.chunk.data != b.ptr.chunk.data
      requires b.ptr == to && i < |before| && before[i].ptr == from && length <= before[i].length && length <= b.length
      modifies to.chunk.data
      ensures forall k :: 0 <= k < |before| ==> Bytes(before[k]) == old(Bytes(before[k]))
      ensures Bytes(b)[..length] == old(Bytes(before[i]))[..length]
    {
      ghost var bytes := Bytes(before[i]);
      FrontOfBlock(before[i], length);
      CopyBlock(from, to, length);
      FrontOfBlock(b, length);
      forall k | 0 <= k < |before| ensures Bytes(before[k]) == old(Bytes(before[k])) {
        assert Disjoint(before[k], b);
      }
    }
  }

  ghost function TotalLength(blocks: seq<Block>): nat {
    if blocks == [] then 0 else TotalLength(blocks[..|blocks| - 1]) + blocks[|blocks| - 1].length
  }

  lemma LengthOfOneMore(blocks: seq<Block>, b: Block)
    ensures TotalLength(blocks + [b]) == TotalLength(blocks) + b.length
  {
    assert (blocks + [b])[..|blocks|] == blocks;
  }

  lemma {:induction false} LengthAfterUpdate(blocks: seq<Block>, i: nat, b: Block)
    requires i < |blocks|
    ensures TotalLength(blocks[i := b]) + blocks[i].length == TotalLength(blocks) + b.length
  {
    if i < |blocks| - 1 {
      LengthAfterUpdate(blocks[..|blocks| - 1], i, b);
      assert blocks[i := b][..|blocks| - 1] == blocks[..|blocks| - 1][i := b];
    } else {
      assert blocks[i := b][..|blocks| - 1] == blocks[..|blocks| - 1];
    }
  }

  ghost function TotalCapacity(chunks: seq<Chunk>): nat
  {
    if chunks == [] then 0 else TotalCapacity(chunks[..|chunks| - 1]) + chunks[|chunks| - 1].data.Length
  }

  ghost function TotalSize(chunks: seq<Chunk>): nat
    reads chunks
  {
    if chunks == [] then 0 else TotalSize(chunks[..|chunks| - 1]) + chunks[|chunks| - 1].size
  }

  /** Both totals are sums: of nothing, of one chunk, and of two lists together. */
  lemma {:induction false} TotalsAdd(a: seq<Chunk>, b: seq<Chunk>)
    ensures TotalCapacity(a + b) == TotalCapacity(a) + TotalCapacity(b) && TotalSize(a + b) == TotalSize(a) + TotalSize(b)
    ensures |b| == 1 ==> TotalCapacity(b) == b[0].data.Length && TotalSize(b) == b[0].size
    ensures b == [] ==> TotalCapacity(b) == 0 && TotalSize(b) == 0
  {
    if b == [] {
      assert a + b == a;
    } else {
      TotalsAdd(a, b[..|b| - 1]);
      assert (a + b)[..|a + b| - 1] == a + b[..|b| - 1];
      if |b| == 1 { assert b[..0] == []; }
    }
  }
}
