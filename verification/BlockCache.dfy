/** The block layer: byte-wise reads, writes and flushes through a write-back cache
    of eight chunks in front of a device whose operations may fail. */
module BlockCache {
  import opened UseList
  import opened CacheState
  import opened FlatBytes
  import opened Octets

  const ENXIO := -6
  const EINVAL := -22

  class BlockDevice {
    const g: Geometry

    var disk: seq<Block>      // the device
    var chunks: seq<Chunk>
    var buffered: seq<int>    // chunks in use, most recently used first
    var idle: seq<int>

    ghost var view: seq<Block>   // what the device looks like through the cache
    ghost var failures: int      // how often the device has failed
    ghost var tick: int
    ghost var lastUse: seq<int>  // when each chunk was last looked up

    /** The lists are in order; `away` is out of both. */
    ghost predicate Listed(away: set<int>)
      reads this
    {
      |chunks| == CHUNKS && Partition(buffered, idle, away) && Recency(buffered, lastUse, tick)
    }

    ghost predicate Cohering()
      reads this
    {
      Coherent(g, disk, chunks, Elems(buffered), view)
    }

    ghost predicate Valid()
      reads this
    {
      Listed({}) && Cohering()
    }

    ghost predicate Covers(c: int, block: int)
      reads this
    {
      0 <= c < |chunks| && chunks[c].start <= block < chunks[c].start + g.rd
    }

    ghost predicate Cached(block: int)
      reads this
    {
      exists c :: c in Elems(buffered) && Covers(c, block)
    }

    // ----------------------------------------------------------------
    // The device

    /** The device writes blocks, or fails having done who knows what there. */
    method DeviceWrite(start: int, data: seq<Block>) returns (ret: int)
      requires 0 <= start && start + |data| <= |disk| && AllSized(g, disk)
      modifies this`failures, this`disk
      ensures if ret < 0 then SameElsewhere(g, old(disk), disk, start, |data|) else disk == WriteRange(old(disk), start, data)
      ensures failures == old(failures) + if ret < 0 then 1 else 0
    {
      ret :| true;
      if ret < 0 {
        failures := failures + 1;
        assert SameElsewhere(g, disk, disk, start, |data|);
        var after: seq<Block> :| SameElsewhere(g, disk, after, start, |data|);
        disk := after;
      } else {
        disk := WriteRange(disk, start, data);
      }
    }

    /** The device fills the front of a buffer, or fails and leaves anything there. */
    method DeviceRead(start: int, len: int, buf: seq<Block>) returns (ret: int, data: seq<Block>)
      requires 0 <= start && 0 <= len <= |buf| && start + len <= |disk| && AllSized(g, buf) && AllSized(g, disk)
      modifies this`failures
      ensures failures == old(failures) + if ret < 0 then 1 else 0
      ensures ret <= 0 && |data| == |buf| && AllSized(g, data)
      ensures ret == 0 ==> data == disk[start..start + len] + buf[len..]
    {
      ret :| ret <= 0;
      if ret == 0 {
        data := disk[start..start + len] + buf[len..];
      } else {
        failures := failures + 1;
        assert SameElsewhere(g, buf, buf, 0, |buf|);
        var junk: seq<Block> :| SameElsewhere(g, buf, junk, 0, |buf|);
        data := junk;
        assert SameElsewhere(g, buf, data, 0, |buf|);
      }
    }

    /** The device's own flush; where it has none, nothing fails. */
    method DeviceFlush() returns (ret: int)
      modifies this`failures
      ensures failures == old(failures) + if ret < 0 then 1 else 0
    {
      ret :| true;
      if ret < 0 {
        failures := failures + 1;
      }
    }

    // ----------------------------------------------------------------
    // Chunks

    /** Looks a block up and moves its chunk to the front; -1 if it is not cached. */
    method ChunkGetCached(block: int) returns (c: int)
      requires Listed({})
      modifies this`buffered, this`tick, this`lastUse
      ensures Listed({}) && Elems(buffered) == Elems(old(buffered))
      ensures c == -1 ==> unchanged(this) && !Cached(block)
      ensures c != -1 ==> c in Elems(buffered) && Covers(c, block) && buffered != [] && buffered[0] == c
      ensures c != -1 ==> tick == old(tick) + 1 && lastUse == old(lastUse)[c := tick]
    {
      var k := 0;
      while k < |buffered|
        invariant 0 <= k <= |buffered|
        invariant forall j | 0 <= j < k :: !Covers(buffered[j], block)
      {
        c := buffered[k];
        if chunks[c].start <= block < chunks[c].start + g.rd {
          MoveToFrontElems(buffered, k);
          UsedRecency(buffered, k, lastUse, tick);
          buffered := MoveToFront(buffered, k);
          tick := tick + 1;
          lastUse := lastUse[c := tick];
          assert c in Elems(buffered);
          return;
        }
        k := k + 1;
      }
      return -1;
    }

    /** Takes a chunk off the lists: an idle one, else the least recently used one
        after writing it back. */
    method GetChunk() returns (ret: int, c: int)
      requires Valid()
      modifies this`failures, this`disk, this`chunks, this`buffered, this`idle
      ensures ret < 0 ==> Valid() && buffered == old(buffered) && idle == old(idle)
      ensures failures == old(failures) + if ret < 0 then 1 else 0
      ensures ret >= 0 ==> Listed({c}) && Cohering() && 0 <= c < CHUNKS && !chunks[c].dirty
      ensures ret >= 0 && old(idle) != [] ==> buffered == old(buffered)
      ensures Elems(buffered) <= Elems(old(buffered))
      ensures ret >= 0 && old(idle) == [] ==>
                c in Elems(old(buffered)) && Elems(buffered) == Elems(old(buffered)) - {c} && forall d | d in Elems(old(buffered)) :: 0 <= d < CHUNKS && lastUse[c] <= lastUse[d]
      ensures |chunks| == |old(chunks)| && forall d | 0 <= d < |chunks| :: chunks[d].start == old(chunks)[d].start
    {
      hide Coherent, Partition, Recency, Elems;
      if idle == [] {
        NeverEmpty(buffered, idle);
        TakeLast(buffered, idle, lastUse, tick);
        c, ret := buffered[|buffered| - 1], 0;
        if chunks[c].dirty {
          ret := WriteBack(c);
          if ret < 0 {
            return;
          }
        }
        Dropped(g, disk, chunks, Elems(buffered), view, c);
        buffered := buffered[..|buffered| - 1];
      } else {
        TakeIdle(buffered, idle);
        IdleClean(g, disk, chunks, Elems(buffered), view, idle[0]);
        c, ret := idle[0], 0;
        idle := idle[1..];
      }
    }

    /** Writes a dirty chunk to the device. */
    method WriteBack(c: int) returns (ret: int)
      requires Cohering() && c in Elems(buffered) && 0 <= c < |chunks| && chunks[c].dirty
      modifies this`failures, this`disk, this`chunks
      ensures Cohering()
      ensures failures == old(failures) + if ret < 0 then 1 else 0
      ensures ret < 0 ==> chunks == old(chunks)
      ensures ret >= 0 ==> chunks == old(chunks)[c := old(chunks)[c].(dirty := false)]
    {
      var ch := chunks[c];
      WrittenBack(g, disk, chunks, Elems(buffered), view, c);
      ghost var disk0 := disk;
      ret := DeviceWrite(ch.start, ch.data[..IoLen(g, ch.start)]);
      if ret < 0 {
        WriteFailed(g, disk0, chunks, Elems(buffered), view, c, disk);
      } else {
        chunks := chunks[c := ch.(dirty := false)];
      }
    }

    /** Reads the chunk range around a block that is not cached into the cache. */
    method CacheBlock(block: int) returns (ret: int)
      requires Valid() && 0 <= block < g.n && !Cached(block)
      modifies this`failures, this`disk, this`chunks, this`buffered, this`idle, this`tick, this`lastUse
      ensures Valid()
      ensures ret == 0 ==> Cached(block)
      ensures ret <= 0 && failures == old(failures) + if ret < 0 then 1 else 0
    {
      hide Coherent, Partition, Recency, Elems;
      ghost var chunks0, s0 := chunks, Elems(buffered);
      CoherentGeometry(g, disk, chunks, s0, view);
      forall d | d in s0 ensures !(0 <= d < CHUNKS && chunks[d].start <= block < chunks[d].start + g.rd) {
        assert !Covers(d, block);
      }
      NotCovered(g, disk, chunks, s0, view, block);
      var c;
      ret, c := GetChunk();
      if ret < 0 {
        return;
      }
      CoherentGeometry(g, disk, chunks, Elems(buffered), view);
      UncachedKept(g, chunks0, s0, chunks, Elems(buffered), block);
      ret := FillChunk(c, block);
    }

    /** Reads the range around a block into a chunk that is out of the lists. */
    method FillChunk(c: int, block: int) returns (ret: int)
      requires Listed({c}) && Cohering() && 0 <= c < CHUNKS && !chunks[c].dirty && g.Ok() && 0 <= block < g.n
      requires Uncached(g, chunks, Elems(buffered), StartOf(g.rd, block))
      modifies this`failures, this`chunks, this`buffered, this`idle, this`tick, this`lastUse
      ensures Valid() && ret <= 0
      ensures ret == 0 ==> Cached(block)
      ensures failures == old(failures) + if ret < 0 then 1 else 0
    {
      hide Coherent, Partition, Recency, Elems, Uncached, AllSized;
      CoherentGeometry(g, disk, chunks, Elems(buffered), view);
      var start := StartOf(g.rd, block);
      StartOfAligned(g.rd, block);
      var data;
      ret, data := DeviceRead(start, IoLen(g, start), chunks[c].data);
      AwayNotIn(buffered, idle, c);
      var ch := chunks[c].(data := data, start := start);
      if ret != 0 {
        Refilled(g, disk, chunks, Elems(buffered), view, c, ch);
        PutIdle(buffered, idle, c);
        chunks := chunks[c := ch];
        idle := idle + [c];
      } else {
        Loaded(g, disk, chunks, Elems(buffered), view, c, ch);
        PutFront(buffered, idle, c, lastUse, tick);
        chunks := chunks[c := ch];
        buffered := [c] + buffered;
        tick := tick + 1;
        lastUse := lastUse[c := tick];
        assert c in Elems(buffered) && Covers(c, block);
      }
    }

    /** The chunk that holds a block, from the cache or after reading it; the lookup
        after a successful read cannot fail. */
    method BlockGet(block: int) returns (ret: int, c: int)
      requires Listed({}) && 0 <= block && (Cohering() || Cached(block))
      modifies this`failures, this`disk, this`chunks, this`buffered, this`idle, this`tick, this`lastUse
      ensures Listed({}) && ret <= 0
      ensures old(Cohering()) ==> Cohering()
      ensures g.n <= block ==> ret == ENXIO && unchanged(this)
      ensures block < g.n ==> failures == old(failures) + if ret < 0 then 1 else 0
      ensures ret == 0 ==> block < g.n && c in Elems(buffered) && Covers(c, block) && buffered != [] && buffered[0] == c
      ensures old(Cached(block)) && block < g.n ==> ret == 0 && chunks == old(chunks) && disk == old(disk) && Elems(buffered) == Elems(old(buffered))
    {
      hide Coherent, Partition, Recency, Elems;
      if block >= g.n {
        return ENXIO, -1;
      }
      c := ChunkGetCached(block);
      if c != -1 {
        return 0, c;
      }
      ret := CacheBlock(block);
      if ret != 0 {
        return;
      }
      c := ChunkGetCached(block);
      if c == -1 {
        assert false;  // BUG()
      }
    }

    /** Cohering, but for a block whose new contents `buf` already are in the buffer
        of chunk `c` (-1 if that is not so); `before` is how the chunks were. */
    ghost predicate PokedIn(before: seq<Chunk>, c: int, block: int, buf: Block)
      reads this
    {
      && Coherent(g, disk, before, Elems(buffered), view)
      && (if c == -1 then chunks == before
          else c in Elems(buffered) && 0 <= c < |before| && before[c].start <= block < before[c].start + g.rd
               && |before[c].data| == g.rd && chunks == Poked(before, c, block, buf))
    }

    /** Puts a block into the cache and marks its chunk dirty. */
    method BlockPut(buf: Block, block: int, ghost before: seq<Chunk>, ghost poked: int) returns (ret: int)
      requires Listed({}) && 0 <= block && |buf| == g.bs && PokedIn(before, poked, block, buf) && (poked != -1 ==> block < g.n)
      modifies this`failures, this`disk, this`chunks, this`buffered, this`idle, this`tick, this`lastUse, this`view
      ensures Valid() && ret <= 0
      ensures poked != -1 ==> ret == 0
      ensures if g.n <= block then ret == -22 && failures == old(failures) else failures == old(failures) + if ret < 0 then 1 else 0
      ensures ret != 0 ==> view == old(view)
      ensures ret == 0 ==> block < g.n == |old(view)| && view == old(view)[block := buf]
    {
      hide Coherent, Partition, Recency, Elems, Poked;
      if block >= g.n {
        return EINVAL;
      }
      ghost var was := before;
      if poked != -1 {
        assert Covers(poked, block);
      }
      var c;
      ret, c := BlockGet(block);
      if ret != 0 {
        return;
      }
      if poked == -1 {
        was := chunks;
      } else {
        SameCover(g, disk, before, Elems(buffered), view, c, poked, block);
        PokedTwice(before, c, block, buf);
      }
      CoherentGeometry(g, disk, was, Elems(buffered), view);
      PutBlock(g, disk, was, Elems(buffered), view, c, block, buf);
      chunks := Poked(chunks, c, block, buf);  // memcpy
      var d := ChunkGetCached(block);
      assert Covers(c, block);
      SameCover(g, disk, was, Elems(buffered), view, c, d, block);
      chunks := chunks[d := chunks[d].(dirty := true)];
      view := view[block := buf];
      assert chunks == was[c := was[c].(data := was[c].data[block - was[c].start := buf], dirty := true)] by {
        PokedDirty(was, c, block, buf);
      }
    }

    // ----------------------------------------------------------------
    // Byte-wise access

    /** Reads bytes `i` to `j` of a block. */
    method GetPart(block: int, i: int, j: int) returns (ret: int, data: seq<byte>)
      requires Valid() && 0 <= block && 0 <= i <= j <= g.bs
      modifies this`failures, this`disk, this`chunks, this`buffered, this`idle, this`tick, this`lastUse
      ensures Valid() && ret <= 0
      ensures ret == 0 ==> block < g.n == |view| && |view[block]| == g.bs && data == view[block][i..j]
      ensures if g.n <= block then ret == -6 && failures == old(failures) else failures == old(failures) + if ret < 0 then 1 else 0
    {
      hide Coherent, Partition, Recency, Elems;
      var c;
      data := [];
      ret, c := BlockGet(block);
      if ret == 0 {
        ShowsBlock(g, disk, chunks, Elems(buffered), view, c, block);
        data := chunks[c].data[block - chunks[c].start][i..j];
      }
    }

    method Read(count: int, offset: int) returns (ret: int, buf: seq<byte>)
      requires Valid() && 0 <= count && 0 <= offset
      modifies this`failures, this`disk, this`chunks, this`buffered, this`idle, this`tick, this`lastUse
      ensures Valid()
      ensures ret < 0 || ret == count
      ensures 0 <= ret ==> |buf| == count && ReadFrom(view, offset, buf)
      ensures failures == old(failures) || (failures == old(failures) + 1 && ret < 0)
      ensures 0 < count ==> (0 <= ret <==> failures == old(failures) && offset + count <= Size(g))
      ensures count == 0 ==> (ret == 0 <==> offset % g.bs == 0 || (failures == old(failures) && offset < Size(g)))
      ensures ret < 0 && failures == old(failures) ==> ret == -6 && Size(g) <= offset + count
    {
      hide Coherent, Partition, Recency, Elems, ReadFrom, AllSized, Size, BlockAt;
      CoherentGeometry(g, disk, chunks, Elems(buffered), view);
      FindBlock(g.bs, offset);
      ReadNothing(view, offset);
      var block, left, skip := offset / g.bs, count, offset % g.bs;
      buf := [];
      if skip != 0 {
        InsideIff(g, block, offset - skip, skip);
        var now := g.bs - skip;
        if count < now {
          now := count;
        }
        var data;
        ret, data := GetPart(block, skip, skip + now);
        if ret != 0 {
          if failures == old(failures) {
            BehindAll(g, block, offset - skip);
          }
          return;
        }
        CoherentGeometry(g, disk, chunks, Elems(buffered), view);
        ReadStep(g, view, offset, buf, block, skip, skip + now);
        NextBlockAt(g.bs, block, offset - skip);
        buf, left, block := buf + data, left - now, block + 1;
      }
      ret, buf := ReadBlocks(offset, buf, block, left);
      if ret == 0 {
        CoherentGeometry(g, disk, chunks, Elems(buffered), view);
        if buf != [] {
          ReadWithin(g, view, offset, buf);
        }
        ret := count;
      }
    }

    /** Whole blocks and a last partial one; `first` is the block of the next byte. */
    method ReadBlocks(offset: int, head: seq<byte>, first: int, count: int) returns (ret: int, buf: seq<byte>)
      requires Valid() && 0 <= count && 0 <= offset && 0 <= first && ReadFrom(view, offset, head)
      requires 0 < g.bs && (0 < count ==> BlockAt(g.bs, first, offset + |head|))
      modifies this`failures, this`disk, this`chunks, this`buffered, this`idle, this`tick, this`lastUse
      ensures Valid() && ret <= 0
      ensures ret == 0 ==> |buf| == |head| + count && ReadFrom(view, offset, buf)
      ensures failures == old(failures) || (failures == old(failures) + 1 && ret < 0)
      ensures ret < 0 && failures == old(failures) ==> ret == ENXIO && Size(g) < offset + |head| + count
      ensures count == 0 ==> ret == 0
    {
      hide Coherent, Partition, Recency, Elems, ReadFrom, AllSized, Size, BlockAt, WholeBlocks;
      var block, left, blocks := first, count, count / g.bs;
      DivideIntoBlocks(g.bs, count);
      buf, ret := head, 0;
      var data;
      while blocks > 0
        invariant Valid() && 0 <= blocks && 0 <= block && ret == 0 && 0 <= left && failures == old(failures)
        invariant WholeBlocks(g.bs, blocks, left) && |buf| + left == |head| + count && (count == 0 ==> blocks == 0 && left == 0)
        invariant (0 < left ==> BlockAt(g.bs, block, offset + |buf|)) && ReadFrom(view, offset, buf)
      {
        WholeBlocksStep(g.bs, blocks, left);
        ret, data := GetPart(block, 0, g.bs);
        if ret != 0 {
          if failures == old(failures) {
            BehindAll(g, block, offset + |buf|);
          }
          return;
        }
        CoherentGeometry(g, disk, chunks, Elems(buffered), view);
        ReadStep(g, view, offset, buf, block, 0, g.bs);
        NextBlockAt(g.bs, block, offset + |buf|);
        buf, blocks, block, left := buf + data, blocks - 1, block + 1, left - g.bs;
      }
      WholeBlocksStep(g.bs, 0, left);
      if left > 0 {
        ret, data := GetPart(block, 0, left);
        if ret != 0 {
          if failures == old(failures) {
            BehindAll(g, block, offset + |buf|);
          }
          return;
        }
        CoherentGeometry(g, disk, chunks, Elems(buffered), view);
        ReadStep(g, view, offset, buf, block, 0, left);
        buf := buf + data;
      }
    }

    /** Writes `d` over a block from byte `i` on: into the buffer of its chunk, and
        from there through BlockPut. */
    method PutPart(block: int, i: int, d: seq<byte>) returns (ret: int)
      requires Valid() && 0 <= block && 0 <= i && i + |d| <= g.bs
      modifies this`failures, this`disk, this`chunks, this`buffered, this`idle, this`tick, this`lastUse, this`view
      ensures Valid() && ret <= 0
      ensures ret != 0 ==> view == old(view)
      ensures ret == 0 ==> block < g.n == |old(view)| && |old(view)[block]| == g.bs && view == old(view)[block := Overwrite(old(view)[block], i, d)]
      ensures if g.n <= block then ret == -6 && failures == old(failures) else failures == old(failures) + if ret < 0 then 1 else 0
    {
      hide Coherent, Partition, Recency, Elems, Overwrite;
      var c;
      ret, c := BlockGet(block);
      if ret != 0 {
        return;
      }
      ShowsBlock(g, disk, chunks, Elems(buffered), view, c, block);
      var iobuf := Overwrite(chunks[c].data[block - chunks[c].start], i, d);
      ghost var before := chunks;
      chunks := Poked(chunks, c, block, iobuf);  // memcpy into the buffer
      ret := BlockPut(iobuf, block, before, c);
    }

    method Write(buf: seq<byte>, offset: int) returns (ret: int, ghost done: int)
      requires Valid() && 0 <= offset
      modifies this`failures, this`disk, this`chunks, this`buffered, this`idle, this`tick, this`lastUse, this`view
      ensures Valid()
      ensures ret < 0 || ret == |buf|
      ensures 0 <= done <= |buf| && WrittenTo(old(view), offset, buf[..done], view)
      ensures 0 <= ret ==> done == |buf|
      ensures failures == old(failures) || (failures == old(failures) + 1 && ret < 0)
      ensures 0 < |buf| ==> (0 <= ret <==> failures == old(failures) && offset + |buf| <= Size(g))
      ensures |buf| == 0 ==> (ret == 0 <==> offset % g.bs == 0 || (failures == old(failures) && offset < Size(g)))
      ensures ret < 0 && failures == old(failures) ==>
        (ret == -6 || ret == -22) && done == if offset < Size(g) then Size(g) - offset else 0
    {
      hide Coherent, Partition, Recency, Elems, WrittenTo, AllSized, Size, BlockAt, Overwrite;
      CoherentGeometry(g, disk, chunks, Elems(buffered), view);
      FindBlock(g.bs, offset);
      WriteNothing(view, offset, buf);
      var block, at, skip := offset / g.bs, 0, offset % g.bs;
      done := 0;
      if skip != 0 {
        InsideIff(g, block, offset - skip, skip);
        var now := g.bs - skip;
        if |buf| < now {
          now := |buf|;
        }
        ret := PutPart(block, skip, buf[..now]);
        if ret != 0 {
          if failures == old(failures) {
            BehindAll(g, block, offset - skip);
          }
          return;
        }
        WriteStep(g, old(view), offset, buf[..0], old(view), block, skip, buf[..now]);
        assert buf[..0] + buf[..now] == buf[..now];
        NextBlockAt(g.bs, block, offset - skip);
        at, block := now, block + 1;
        done := at;
      }
      ret, done := WriteBlocks(old(view), offset, buf, at, block);
      if 0 < done {
        WriteWithin(g, old(view), offset, buf[..done], view);
      }
      if ret == 0 {
        ret := |buf|;
      }
    }

    /** Whole blocks and a last partial one; `first` is the block of byte `at`. */
    method WriteBlocks(ghost v: seq<Block>, offset: int, buf: seq<byte>, from: int, first: int) returns (ret: int, ghost done: int)
      requires Valid() && 0 <= offset && 0 <= from <= |buf| && 0 <= first && WrittenTo(v, offset, buf[..from], view)
      requires 0 < g.bs && (from < |buf| ==> BlockAt(g.bs, first, offset + from))
      modifies this`failures, this`disk, this`chunks, this`buffered, this`idle, this`tick, this`lastUse, this`view
      ensures Valid() && ret <= 0
      ensures 0 <= done <= |buf| && WrittenTo(v, offset, buf[..done], view)
      ensures ret == 0 ==> done == |buf|
      ensures failures == old(failures) || (failures == old(failures) + 1 && ret < 0)
      ensures ret < 0 && failures == old(failures) ==> (ret == ENXIO || ret == EINVAL) && done < |buf| && Size(g) <= offset + done
      ensures from == |buf| ==> ret == 0
    {
      hide Coherent, Partition, Recency, Elems, WrittenTo, AllSized, Size, BlockAt, WholeBlocks, Overwrite;
      var block, at, blocks := first, from, (|buf| - from) / g.bs;
      DivideIntoBlocks(g.bs, |buf| - from);
      done, ret := at, 0;
      while blocks > 0
        invariant Valid() && 0 <= blocks && 0 <= block && ret == 0 && 0 <= at == done <= |buf| && failures == old(failures)
        invariant WholeBlocks(g.bs, blocks, |buf| - at) && (from == |buf| ==> blocks == 0 && at == |buf|)
        invariant (at < |buf| ==> BlockAt(g.bs, block, offset + at)) && WrittenTo(v, offset, buf[..at], view)
      {
        WholeBlocksStep(g.bs, blocks, |buf| - at);
        ghost var w := view;
        CoherentGeometry(g, disk, chunks, Elems(buffered), view);
        ret := BlockPut(buf[at..at + g.bs], block, chunks, -1);
        if ret != 0 {
          if failures == old(failures) {
            BehindAll(g, block, offset + at);
          }
          return;
        }
        WholeOverwrite(g, w, block, buf[at..at + g.bs]);
        WriteStep(g, v, offset, buf[..at], w, block, 0, buf[at..at + g.bs]);
        assert buf[..at] + buf[at..at + g.bs] == buf[..at + g.bs];
        NextBlockAt(g.bs, block, offset + at);
        blocks, block, at := blocks - 1, block + 1, at + g.bs;
        done := at;
      }
      WholeBlocksStep(g.bs, 0, |buf| - at);
      if at < |buf| {
        ghost var w := view;
        CoherentGeometry(g, disk, chunks, Elems(buffered), view);
        ret := PutPart(block, 0, buf[at..]);
        if ret != 0 {
          if failures == old(failures) {
            BehindAll(g, block, offset + at);
          }
          return;
        }
        WriteStep(g, v, offset, buf[..at], w, block, 0, buf[at..]);
        assert buf[..at] + buf[at..] == buf[..|buf|];
        done := |buf|;
      }
    }

    /** Writes all dirty chunks back.  Only a successful flush says that the device
        has everything; a failed one still changes nothing a reader could see. */
    method Flush() returns (ret: int)
      requires Valid()
      modifies this`failures, this`disk, this`chunks
      ensures Valid()
      ensures 0 <= ret ==> disk == view && forall c | c in Elems(buffered) :: 0 <= c < |chunks| && !chunks[c].dirty
      ensures failures == old(failures) + if ret < 0 then 1 else 0
    {
      hide Coherent, Partition, Recency;
      var k := 0;
      while k < |buffered|
        invariant 0 <= k <= |buffered| && Valid() && failures == old(failures)
        invariant forall j | 0 <= j < k :: 0 <= buffered[j] < |chunks| && !chunks[buffered[j]].dirty
      {
        var c := buffered[k];
        InRange(buffered, idle, {}, c);
        if chunks[c].dirty {
          ret := WriteBack(c);
          if ret < 0 {
            return;
          }
        }
        k := k + 1;
      }
      AllClean(g, disk, chunks, Elems(buffered), view);
      ret := DeviceFlush();
    }

    constructor (bs: int, rd: int, device: seq<Block>)
      requires 0 < bs && 0 < rd && AllSized(Geometry(bs, rd, |device|), device)
      ensures failures == 0
      ensures Valid() && view == disk == device && g == Geometry(bs, rd, |device|)
    {
      hide Coherent, Partition, Recency, Elems;
      g := Geometry(bs, rd, |device|);
      disk := device;
      chunks := seq(CHUNKS, c => EmptyChunk(Geometry(bs, rd, |device|)));
      buffered, idle := [], [0, 1, 2, 3, 4, 5, 6, 7];
      view, failures, tick, lastUse := device, 0, 0, [0, 0, 0, 0, 0, 0, 0, 0];
      new;
      AllIdle();
      NothingCached(g, disk);
      assert chunks == seq(CHUNKS, c => EmptyChunk(g));
    }
  }
}
