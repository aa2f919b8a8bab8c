/** File contents: chunked reads and writes over the zone map against a plain sequence of
    bytes. */
module FileData {
  import opened Common
  import opened Disk
  import opened Bitmaps
  import opened ZoneTree
  import opened ZoneMap
  import opened FileBlocks
  import opened ZoneNeeds

  // ----- the file as a value

  /** Replacing the bytes of `c` from `pos` on by `d`, growing `c` if `d` is longer. */
  function Splice(c: seq<byte>, pos: nat, d: seq<byte>): (r: seq<byte>)
    requires pos <= |c|
  {
    c[..pos] + d + if pos + |d| <= |c| then c[pos + |d|..] else []
  }

  /** The new bytes stand where they were put; before and after them nothing has changed. */
  lemma SpliceMeans(c: seq<byte>, pos: nat, d: seq<byte>)
    requires pos <= |c|
    ensures
      var r := Splice(c, pos, d);
      && |r| == (if pos + |d| <= |c| then |c| else pos + |d|)
      && r[..pos] == c[..pos]
      && r[pos..pos + |d|] == d
      && (pos + |d| <= |c| ==> r[pos + |d|..] == c[pos + |d|..])
  {
    assert Splice(c, pos, d)[..pos + |d|] == c[..pos] + d;
  }

  /** Writing in two pieces is writing at once. */
  lemma SpliceSplice(c: seq<byte>, pos: nat, d: seq<byte>, e: seq<byte>)
    requires pos <= |c|
    ensures pos + |d| <= |Splice(c, pos, d)|
    ensures Splice(Splice(c, pos, d), pos + |d|, e) == Splice(c, pos, d + e)
  {
    var s := Splice(c, pos, d);
    assert s[..pos + |d|] == c[..pos] + d;
    if pos + |d| + |e| <= |c| {
      assert s[pos + |d| + |e|..] == c[pos + |d| + |e|..];
    }
  }

  predicate IsData(g: DeviceInfo, block: Block) {
    block.Data? && |block.bytes| == g.blocksize
  }

  /** The `k`th block of the file is there and holds data. */
  ghost predicate HasBlock(g: DeviceInfo, v: View, blocks: map<nat, Block>, k: nat) {
    HasZone(g, v, k) && FileBlock(g, v, k) in blocks && IsData(g, blocks[FileBlock(g, v, k)])
  }

  ghost function BlockBytes(g: DeviceInfo, v: View, blocks: map<nat, Block>, k: nat): seq<byte>
    requires HasBlock(g, v, blocks, k)
  {
    blocks[FileBlock(g, v, k)].bytes
  }

  /** The first `n` bytes of the file are there, without holes. */
  ghost predicate DenseTo(g: DeviceInfo, v: View, blocks: map<nat, Block>, n: nat)
    requires 0 < g.blocksize
  {
    forall k: nat | k * g.blocksize < n :: HasBlock(g, v, blocks, k)
  }

  /** Blocks of the file's zones, if their contents are known, hold data. */
  ghost predicate TypedFile(g: DeviceInfo, v: View, blocks: map<nat, Block>) {
    forall k: nat | HasZone(g, v, k) && FileBlock(g, v, k) in blocks :: HasBlock(g, v, blocks, k)
  }

  lemma DenseAt(g: DeviceInfo, v: View, blocks: map<nat, Block>, n: nat, p: nat)
    requires 0 < g.blocksize && DenseTo(g, v, blocks, n) && p < n
    ensures HasBlock(g, v, blocks, Quot(p, g.blocksize))
  {
    DivMod(p, g.blocksize);
  }

  ghost function ByteAt(g: DeviceInfo, v: View, blocks: map<nat, Block>, p: nat): byte
    requires 0 < g.blocksize && HasBlock(g, v, blocks, Quot(p, g.blocksize))
  {
    BlockBytes(g, v, blocks, Quot(p, g.blocksize))[Rem(p, g.blocksize)]
  }

  /** The first `n` bytes of the file. */
  ghost function Bytes(g: DeviceInfo, v: View, blocks: map<nat, Block>, n: nat): (c: seq<byte>)
    requires 0 < g.blocksize && DenseTo(g, v, blocks, n)
    ensures |c| == n
  {
    seq(n, p requires 0 <= p < n => DenseAt(g, v, blocks, n, p); ByteAt(g, v, blocks, p))
  }

  /** Byte `p` of a file, where `ReadMap` finds its block. */
  lemma BytesMeans(g: DeviceInfo, zone: seq<nat>, blocks: map<nat, Block>, n: nat, p: nat)
    requires |zone| == V2_NR_TZONES && 0 < NrIndirects(g) && 0 < g.blocksize && n <= MaxBytes(g) && p < n
    requires DenseTo(g, ViewOf(g, zone, blocks), blocks, n)
    ensures
      var b := BlockAt(g, zone, blocks, p);
      && b != NO_BLOCK && b in blocks && blocks[b].Data? && |blocks[b].bytes| == g.blocksize
      && Bytes(g, ViewOf(g, zone, blocks), blocks, n)[p] == blocks[b].bytes[p % g.blocksize]
  {
    hide ViewOf, MaxBytes, BlockAt;
    PositionBelow(g, p);
    PositionBlock(g, zone, blocks, p);
    DenseAt(g, ViewOf(g, zone, blocks), blocks, n, p);
  }

  // ----- one chunk of a write

  /** Bytes `off..off + |d|` of a block replaced by `d`. */
  function Patch(bytes: seq<byte>, off: nat, d: seq<byte>): seq<byte>
    requires off + |d| <= |bytes|
  {
    bytes[..off] + d + bytes[off + |d|..]
  }

  /** Only block `k` of the file changed, and it now holds `bytes`. */
  ghost predicate OneBlock(g: DeviceInfo, v: View, blocks: map<nat, Block>, v': View, blocks': map<nat, Block>,
        k: nat, bytes: seq<byte>) {
    && HasBlock(g, v', blocks', k) && BlockBytes(g, v', blocks', k) == bytes
    && forall j: nat | j != k && HasBlock(g, v, blocks, j) ::
         HasBlock(g, v', blocks', j) && BlockBytes(g, v', blocks', j) == BlockBytes(g, v, blocks, j)
  }

  /** A block filled within the extent, or right at its end, leaves no hole. */
  lemma OneBlockDense(g: DeviceInfo, v: View, blocks: map<nat, Block>, v': View, blocks': map<nat, Block>, n: nat,
        n': nat, k: nat, bytes: seq<byte>)
    requires 0 < g.blocksize && DenseTo(g, v, blocks, n)
    requires OneBlock(g, v, blocks, v', blocks', k, bytes)
    requires n' <= n || (k * g.blocksize <= n && n' <= k * g.blocksize + g.blocksize)
    ensures DenseTo(g, v', blocks', n')
  {
    forall j: nat | j * g.blocksize < n'
      ensures HasBlock(g, v', blocks', j)
    {
      if j != k && n <= j * g.blocksize {
        MulOrder(k, j, g.blocksize);
        MulOrder(j, k, g.blocksize);
      }
    }
  }

  /** A chunk patched into its block is a splice of the file. `n` is the extent before, and
      what the block held from `off` down and from the end of the chunk up to `n` is kept. */
  lemma ChunkSplice(g: DeviceInfo, v: View, blocks: map<nat, Block>, v': View, blocks': map<nat, Block>, n: nat,
        pos: nat, k: nat, off: nat, d: seq<byte>, bytes: seq<byte>)
    requires 0 < g.blocksize && off + |d| <= g.blocksize == |bytes|
    requires 0 < |d| && pos == k * g.blocksize + off <= n
    requires DenseTo(g, v, blocks, n)
    requires OneBlock(g, v, blocks, v', blocks', k, Patch(bytes, off, d))
    requires forall p: nat | p < n && Quot(p, g.blocksize) == k
              && (Rem(p, g.blocksize) < off || off + |d| <= Rem(p, g.blocksize)) ::
               HasBlock(g, v, blocks, k) && bytes[Rem(p, g.blocksize)] ==
                   BlockBytes(g, v, blocks, k)[Rem(p, g.blocksize)]
    ensures
      var n' := if n < pos + |d| then pos + |d| else n;
      && DenseTo(g, v', blocks', n')
      && Bytes(g, v', blocks', n') == Splice(Bytes(g, v, blocks, n), pos, d)
  {
    hide DenseTo;
    var n' := if n < pos + |d| then pos + |d| else n;
    OneBlockDense(g, v, blocks, v', blocks', n, n', k, Patch(bytes, off, d));
    var c, c' := Bytes(g, v, blocks, n), Bytes(g, v', blocks', n');
    var s := Splice(c, pos, d);
    assert |s| == n';
    forall p: nat | p < n'
      ensures c'[p] == s[p]
    {
      ChunkByte(g, k, off, p);
      DenseAt(g, v', blocks', n', p);
      if p < n {
        DenseAt(g, v, blocks, n, p);
      }
    }
  }

  /** Where a position lies relative to a chunk at offset `off` of block `k`. */
  lemma ChunkByte(g: DeviceInfo, k: nat, off: nat, p: nat)
    requires 0 < g.blocksize && off < g.blocksize
    ensures Quot(p, g.blocksize) == k ==> p == k * g.blocksize + Rem(p, g.blocksize)
    ensures Quot(p, g.blocksize) < k ==> p < k * g.blocksize
    ensures Quot(p, g.blocksize) > k ==> k * g.blocksize + g.blocksize <= p
  {
    DivMod(p, g.blocksize);
    MulOrder(Quot(p, g.blocksize), k, g.blocksize);
    MulOrder(k, Quot(p, g.blocksize), g.blocksize);
  }

  // ----- the file over the zone tree

  /** Block `k` filled after the tree grew for it: no other block of the file changed. */
  lemma GrewOneBlock(g: DeviceInfo, v: View, blocks: map<nat, Block>, marks: set<nat>, v': View, blocks': map<nat,
        Block>, marks': set<nat>, k: nat, b: nat, bytes: seq<byte>)
    requires 0 < NrIndirects(g) && v.Keys == Nodes(NrIndirects(g)) && Distinct(v')
    requires Grew(g, v, blocks, marks, v', blocks', marks', BlockNode(g, k), {b})
    requires HasZone(g, v', k) && b == FileBlock(g, v', k) && |bytes| == g.blocksize
    ensures OneBlock(g, v, blocks, v', blocks'[b := Data(bytes)], k, bytes)
  {
    var blocks'' := blocks'[b := Data(bytes)];
    forall j: nat | j != k && HasBlock(g, v, blocks, j)
      ensures HasBlock(g, v', blocks'', j) && BlockBytes(g, v', blocks'', j) == BlockBytes(g, v, blocks, j)
    {
      OtherBlock(g, v, blocks, marks, v', blocks', marks', k, {b}, j);
    }
  }

  /** Blocks of free zones, if their contents are known, hold data. */
  ghost predicate FreeTyped(g: DeviceInfo, marks: set<nat>, blocks: map<nat, Block>) {
    forall z: nat, w: nat | IsDataZone(g, z) && z !in marks && w < Pow2(g.scale) && ZoneBlock(g, z, w) in blocks ::
      IsData(g, blocks[ZoneBlock(g, z, w)])
  }

  /** A new zone can be had for block `k`: zones are single blocks, or its other blocks do not
      hold anything else. */
  ghost predicate ZoneFor(g: DeviceInfo, v: View, blocks: map<nat, Block>, marks: set<nat>, k: nat) {
    g.scale == 0 || HasZone(g, v, k) || FreeTyped(g, marks, blocks)
  }

  /** The zone that the tree took for a block was free. */
  lemma NewZoneFree(g: DeviceInfo, v: View, blocks: map<nat, Block>, marks: set<nat>, v': View, blocks': map<nat,
        Block>, marks': set<nat>, k: nat, extra: set<nat>)
    requires Grew(g, v, blocks, marks, v', blocks', marks', BlockNode(g, k), extra)
    requires Distinct(v') && !HasZone(g, v, k) && HasZone(g, v', k)
    ensures v'[BlockNode(g, k)] !in marks
  {
    var z := v'[BlockNode(g, k)];
    assert z in TreeZones(v');
    forall p | p in v && v[p] != NO_ZONE
      ensures v[p] != z
    {
      assert v'[p] == v[p] && p != BlockNode(g, k);
    }
  }

  /** A file in use: its tree is sound, its first `n` bytes are there. */
  ghost predicate FileState(rip: CacheInode, cache: BlockCache, n: nat)
    reads rip`zone, cache, rip.bitmap
  {
    && rip.Owned(cache)
    && n <= MaxBytes(rip.devinfo)
    && DenseTo(rip.devinfo, rip.View(cache), cache.blocks, n)
    && TypedFile(rip.devinfo, rip.View(cache), cache.blocks)
  }

  /** What the blocks kept for a chunk must hold: all the file's bytes that the chunk does
      not cover. */
  ghost predicate Keeps(g: DeviceInfo, v: View, blocks: map<nat, Block>, n: nat, k: nat, off: nat, chunk: nat,
        bytes: seq<byte>)
    requires 0 < g.blocksize == |bytes|
  {
    forall p: nat | p < n && Quot(p, g.blocksize) == k
        && (Rem(p, g.blocksize) < off || off + chunk <= Rem(p, g.blocksize)) ::
      HasBlock(g, v, blocks, k) && bytes[Rem(p, g.blocksize)] == BlockBytes(g, v, blocks, k)[Rem(p, g.blocksize)]
  }

  /** A chunk that covers its block, or lies past the file's extent, has nothing to keep. */
  lemma KeepsNothing(g: DeviceInfo, v: View, blocks: map<nat, Block>, n: nat, k: nat, off: nat, chunk: nat,
        bytes: seq<byte>)
    requires 0 < g.blocksize == |bytes|
    requires (off == 0 && chunk == g.blocksize) || n <= k * g.blocksize
    ensures Keeps(g, v, blocks, n, k, off, chunk, bytes)
  {
    forall p: nat | p < n && Quot(p, g.blocksize) == k
      ensures !(Rem(p, g.blocksize) < off || off + chunk <= Rem(p, g.blocksize))
    {
      ChunkByte(g, k, 0, p);
    }
  }

  lemma NothingToKeep(g: DeviceInfo, v: View, blocks: map<nat, Block>, n: nat, pos: nat, off: nat, chunk: nat)
    requires 0 < g.blocksize && off == Rem(pos, g.blocksize) && off + chunk <= g.blocksize && pos <= n
    requires DenseTo(g, v, blocks, n)
    requires chunk == g.blocksize || !HasBlock(g, v, blocks, Quot(pos, g.blocksize)) || (n == pos && off == 0)
    ensures forall bytes: seq<byte> | |bytes| == g.blocksize ::
              Keeps(g, v, blocks, n, Quot(pos, g.blocksize), off, chunk, bytes)
  {
    ChunkByte(g, Quot(pos, g.blocksize), 0, pos);
    forall bytes: seq<byte> | |bytes| == g.blocksize
      ensures Keeps(g, v, blocks, n, Quot(pos, g.blocksize), off, chunk, bytes)
    {
      KeepsNothing(g, v, blocks, n, Quot(pos, g.blocksize), off, chunk, bytes);
    }
  }

  lemma KeepsBlock(g: DeviceInfo, v: View, blocks: map<nat, Block>, n: nat, k: nat, off: nat, chunk: nat)
    requires 0 < g.blocksize && HasBlock(g, v, blocks, k)
    ensures Keeps(g, v, blocks, n, k, off, chunk, BlockBytes(g, v, blocks, k))
  {
  }

  /** What a chunk's block must hold: anything, or what it held. */
  lemma WhatToKeep(g: DeviceInfo, v: View, blocks: map<nat, Block>, size: nat, n: nat, pos: nat, off: nat, chunk: nat)
    requires 0 < g.blocksize && off == Rem(pos, g.blocksize) && off + chunk <= g.blocksize
    requires n == (if size < pos then pos else size) && DenseTo(g, v, blocks, n)
    ensures
      var k := Quot(pos, g.blocksize);
      if chunk == g.blocksize || !HasZone(g, v, k) || (pos >= size && off == 0) then
        forall bytes: seq<byte> | |bytes| == g.blocksize :: Keeps(g, v, blocks, n, k, off, chunk, bytes)
      else
        HasBlock(g, v, blocks, k) && Keeps(g, v, blocks, n, k, off, chunk, BlockBytes(g, v, blocks, k))
  {
    var k := Quot(pos, g.blocksize);
    if chunk == g.blocksize || !HasZone(g, v, k) || (pos >= size && off == 0) {
      NothingToKeep(g, v, blocks, n, pos, off, chunk);
    } else {
      ChunkByte(g, k, 0, pos);
      assert k * g.blocksize < n;
      KeepsBlock(g, v, blocks, n, k, off, chunk);
    }
  }

  /** A block that is there lacks nothing. */
  lemma BlockLacks(rip: CacheInode, cache: BlockCache, pos: nat)
    requires rip.Owned(cache) && RelZone(rip.devinfo, pos) < MaxZones(rip.devinfo)
    ensures
      var k := Quot(pos, rip.devinfo.blocksize);
      && BlockNode(rip.devinfo, k) in rip.View(cache)
      && (HasZone(rip.devinfo, rip.View(cache), k) ==>
            Lacking(rip.View(cache), BlockNode(rip.devinfo, k)) == {}
            && Needs(rip.View(cache), BlockNode(rip.devinfo, k)) == 0)
  {
    DataNodeValid(rip.devinfo, RelZone(rip.devinfo, pos));
    NothingLacking(rip.devinfo, rip.zone, cache.blocks, DataNode(rip.devinfo, RelZone(rip.devinfo, pos)));
  }

  /** Finds or creates the block a chunk goes into. */
  method ChunkBlock(rip: CacheInode, pos: nat, off: nat, chunk: nat, cache: BlockCache, ghost n: nat)
        returns (b: nat, err: Error)
    requires FileState(rip, cache, n) && n == (if rip.size < pos then pos else rip.size)
    requires off == Rem(pos, rip.devinfo.blocksize) && 0 < chunk && off + chunk <= rip.devinfo.blocksize
    requires pos < MaxBytes(rip.devinfo)
    requires rip.devinfo.scale == 0 || pos == rip.size
              || HasZone(rip.devinfo, rip.View(cache), Quot(pos, rip.devinfo.blocksize))
    modifies rip`zone, rip`dirty, cache, rip.bitmap`maps, rip.bitmap`zSearch
    ensures rip.Owned(cache)
    ensures err == OK || (err == ENOSPC && NearlyFull(rip.bitmap))
    ensures err == OK <==>
            Needs(old(rip.View(cache)), BlockNode(rip.devinfo, Quot(pos, rip.devinfo.blocksize))) <=
            old(rip.bitmap.FreeZones())
    ensures Grew(rip.devinfo, old(rip.View(cache)), old(cache.blocks), old(rip.bitmap.Zones()),
                 rip.View(cache), cache.blocks, rip.bitmap.Zones(),
                 BlockNode(rip.devinfo, Quot(pos, rip.devinfo.blocksize)), if err == OK then {b} else {})
    ensures err != OK ==> !HasZone(rip.devinfo, rip.View(cache), Quot(pos, rip.devinfo.blocksize))
    ensures err == OK ==>
              && HasBlock(rip.devinfo, rip.View(cache), cache.blocks, Quot(pos, rip.devinfo.blocksize))
              && b == FileBlock(rip.devinfo, rip.View(cache), Quot(pos, rip.devinfo.blocksize))
              && Keeps(rip.devinfo, old(rip.View(cache)), old(cache.blocks), n, Quot(pos, rip.devinfo.blocksize),
                  off, chunk,
                       cache.blocks[b].bytes)
  {
    var g := rip.devinfo;
    var bsize := g.blocksize;
    var fsize := rip.size;
    ghost var k := Quot(pos, bsize);
    ghost var v0, blocks0, marks0 := rip.View(cache), cache.blocks, rip.bitmap.Zones();
    PositionBelow(g, pos);
    PositionBlock(g, rip.zone, cache.blocks, pos);
    WhatToKeep(g, v0, blocks0, fsize, n, pos, off, chunk);
    BlockLacks(rip, cache, pos);
    hide Keeps, DenseTo, IndirectBlocks, Grew, Bitmap.Ready, Bitmap.Zones, NearlyFull, Quot, Rem, FileBlock, HasZone,
        BlockNode, TypedFile, Needs, Bitmap.FreeZones, Lacking, DataZones;
    b := ReadMap(rip, pos, cache);
    if b == NO_BLOCK {
      b, err := NewBlock(rip, pos, FULL_DATA_BLOCK, cache);
      PositionBlock(g, rip.zone, cache.blocks, pos);
      if err != OK {
        return;
      }
    } else {
      FetchOld(rip, pos, off, chunk, b, cache);
      err := OK;
    }
    if chunk != bsize && pos >= fsize && off == 0 {
      ClearBlock(rip, pos, b, cache, v0, blocks0, marks0);
    }
  }

  /** Zeroes a block past the end of the file. */
  method ClearBlock(rip: CacheInode, pos: nat, b: nat, cache: BlockCache, ghost v0: View,
        ghost blocks0: map<nat, Block>, ghost marks0: set<nat>)
    requires rip.Owned(cache) && RelZone(rip.devinfo, pos) < MaxZones(rip.devinfo)
    requires
      var k := Quot(pos, rip.devinfo.blocksize);
      && HasZone(rip.devinfo, rip.View(cache), k) && b == FileBlock(rip.devinfo, rip.View(cache), k)
      && Grew(rip.devinfo, v0, blocks0, marks0, rip.View(cache), cache.blocks, rip.bitmap.Zones(),
          BlockNode(rip.devinfo, k), {b})
    modifies cache
    ensures rip.Owned(cache) && rip.View(cache) == old(rip.View(cache))
    ensures HasBlock(rip.devinfo, rip.View(cache), cache.blocks, Quot(pos, rip.devinfo.blocksize))
    ensures Grew(rip.devinfo, v0, blocks0, marks0, rip.View(cache), cache.blocks, rip.bitmap.Zones(),
                 BlockNode(rip.devinfo, Quot(pos, rip.devinfo.blocksize)), {b})
  {
    var g := rip.devinfo;
    PositionBlock(g, rip.zone, cache.blocks, pos);
    hide IndirectBlocks, Grew, Bitmap.Ready, Bitmap.Zones, BlockNode, Quot, Rem, ToBlock;
    ghost var v1, blocks1 := rip.View(cache), cache.blocks;
    cache.ZeroBlock(b, FULL_DATA_BLOCK, g.blocksize);
    DataBlockWritten(g, rip.zone, blocks1, cache.blocks, pos);
    GrewThenFilled(g, v0, blocks0, marks0, v1, blocks1, rip.bitmap.Zones(), cache.blocks,
        BlockNode(g, Quot(pos, g.blocksize)), b, {b});
  }

  /** Fetches the block a chunk goes into. One that need not be read may hold anything. */
  method FetchOld(rip: CacheInode, pos: nat, off: nat, chunk: nat, b: nat, cache: BlockCache)
    requires rip.Owned(cache) && TypedFile(rip.devinfo, rip.View(cache), cache.blocks)
    requires RelZone(rip.devinfo, pos) < MaxZones(rip.devinfo)
    requires
      var k := Quot(pos, rip.devinfo.blocksize);
      HasZone(rip.devinfo, rip.View(cache), k) && b == FileBlock(rip.devinfo, rip.View(cache), k)
    modifies cache
    ensures rip.Owned(cache) && rip.View(cache) == old(rip.View(cache))
    ensures HasBlock(rip.devinfo, rip.View(cache), cache.blocks, Quot(pos, rip.devinfo.blocksize))
    ensures Grew(rip.devinfo, old(rip.View(cache)), old(cache.blocks), rip.bitmap.Zones(),
                 rip.View(cache), cache.blocks, rip.bitmap.Zones(),
                 BlockNode(rip.devinfo, Quot(pos, rip.devinfo.blocksize)), {b})
    ensures b in old(cache.blocks) && chunk != rip.devinfo.blocksize && !(off == 0 && pos >= rip.size) ==>
              cache.blocks == old(cache.blocks)
  {
    var g := rip.devinfo;
    ghost var v0, blocks0, marks0, m := rip.View(cache), cache.blocks, rip.bitmap.Zones(),
        BlockNode(g, Quot(pos, g.blocksize));
    PositionBlock(g, rip.zone, cache.blocks, pos);
    hide IndirectBlocks, Grew, Bitmap.Ready, Bitmap.Zones, BlockNode, Quot, Rem, ToBlock;
    var flag := NORMAL;
    if chunk == g.blocksize {
      flag := NO_READ;
    }
    if off == 0 && pos >= rip.size {
      flag := NO_READ;
    }
    cache.GetBlock(b, FULL_DATA_BLOCK, flag, g.blocksize);
    DataBlockWritten(g, rip.zone, blocks0, cache.blocks, pos);
    GrewNothing(g, v0, blocks0, marks0, m);
    GrewThenFilled(g, v0, blocks0, marks0, v0, blocks0, marks0, cache.blocks, m, b, {});
  }

  /** The outcome of writing `d` at `pos`: the bytes are spliced in, the newly marked zones
      are the newly attached ones, and no block outside the tree changed. */
  ghost predicate Wrote(g: DeviceInfo, v: View, blocks: map<nat, Block>, marks: set<nat>, n: nat, v': View,
        blocks': map<nat, Block>, marks': set<nat>, n': nat, pos: nat, d: seq<byte>)
    requires 0 < g.blocksize
  {
    && n' == (if n < pos + |d| then pos + |d| else n) && pos <= n
    && DenseTo(g, v, blocks, n) && DenseTo(g, v', blocks', n')
    && Bytes(g, v', blocks', n') == Splice(Bytes(g, v, blocks, n), pos, d)
    && Accounted(v, marks, v', marks', NO_ZONE)
    && TreeZones(v) <= TreeZones(v')
    && (forall m | m in v && v[m] != NO_ZONE :: m in v' && v'[m] == v[m])
    && Untouched(blocks, blocks', TreeBlocks(g, v'))
    && (Tight(g, v, n) ==> Tight(g, v', n'))
  }

  /** Filling block `k` keeps the file typed. */
  lemma OneBlockTyped(g: DeviceInfo, v: View, blocks: map<nat, Block>, marks: set<nat>, v': View, blocks': map<nat,
        Block>, marks': set<nat>, k: nat, b: nat)
    requires 0 < NrIndirects(g) && v.Keys == Nodes(NrIndirects(g)) && Distinct(v') && Sound(g, v')
    requires Grew(g, v, blocks, marks, v', blocks', marks', BlockNode(g, k), {b})
    requires HasBlock(g, v', blocks', k) && b == FileBlock(g, v', k)
    requires TypedFile(g, v, blocks) && ZoneFor(g, v, blocks, marks, k)
    ensures TypedFile(g, v', blocks')
  {
    forall j: nat | j != k && HasZone(g, v', j) && FileBlock(g, v', j) in blocks'
      ensures HasBlock(g, v', blocks', j)
    {
      BlocksDiffer(g, v', j, k);
      BlockApart(g, v', j);
      if HasZone(g, v, j) {
        SameOrOtherZone(g, v, v', k, j);
      } else {
        NewZoneTyped(g, v, blocks, marks, v', blocks', marks', k, {b}, j);
      }
    }
  }

  /** The other blocks of the zone that the tree took for a block. */
  lemma NewZoneTyped(g: DeviceInfo, v: View, blocks: map<nat, Block>, marks: set<nat>, v': View, blocks': map<nat,
        Block>, marks': set<nat>, k: nat, extra: set<nat>, j: nat)
    requires 0 < NrIndirects(g) && v.Keys == Nodes(NrIndirects(g)) && Distinct(v') && Sound(g, v')
    requires Grew(g, v, blocks, marks, v', blocks', marks', BlockNode(g, k), extra)
    requires ZoneFor(g, v, blocks, marks, k) && HasZone(g, v', k)
    requires j != k && HasZone(g, v', j) && !HasZone(g, v, j)
    requires FileBlock(g, v', j) in blocks' && FileBlock(g, v', j) !in IndirectBlocks(g, v') + extra
    ensures HasBlock(g, v', blocks', j)
  {
    DataNodeValid(g, Quot(j, Pow2(g.scale)));
    SameOrOtherZone(g, v, v', k, j);
    assert BlockNode(g, j) == BlockNode(g, k);
    NewZoneFree(g, v, blocks, marks, v', blocks', marks', k, extra);
    FileZoneInverse(g, Quot(j, Pow2(g.scale)), Single);
    FileZoneInverse(g, Quot(k, Pow2(g.scale)), Single);
    DivMod(j, Pow2(g.scale));
    DivMod(k, Pow2(g.scale));
    assert g.scale > 0;
    assert IsDataZone(g, v'[BlockNode(g, j)]);
    assert FileBlock(g, v', j) in blocks;
    assert FileBlock(g, v', j) == ZoneBlock(g, v'[BlockNode(g, j)], Rem(j, Pow2(g.scale)));
  }

  /** No block could be had: the file is what it was. */
  lemma NoBlockTyped(g: DeviceInfo, v: View, blocks: map<nat, Block>, v': View, blocks': map<nat, Block>,
        marks: set<nat>, marks': set<nat>, k: nat, n: nat)
    requires 0 < NrIndirects(g) && v.Keys == Nodes(NrIndirects(g)) && Distinct(v')
    requires Grew(g, v, blocks, marks, v', blocks', marks', BlockNode(g, k), {}) && !HasZone(g, v', k)
    requires TypedFile(g, v, blocks) && DenseTo(g, v, blocks, n)
    ensures TypedFile(g, v', blocks') && DenseTo(g, v', blocks', n)
    ensures Bytes(g, v', blocks', n) == Bytes(g, v, blocks, n)
  {
    forall j: nat | HasZone(g, v', j)
      ensures HasZone(g, v, j) && FileBlock(g, v', j) == FileBlock(g, v, j)
      ensures FileBlock(g, v', j) !in IndirectBlocks(g, v')
    {
      SameOrOtherZone(g, v, v', k, j);
      BlockApart(g, v', j);
    }
    forall j: nat | HasBlock(g, v, blocks, j)
      ensures HasBlock(g, v', blocks', j) && BlockBytes(g, v', blocks', j) == BlockBytes(g, v, blocks, j)
    {
      SameOrOtherZone(g, v, v', k, j);
    }
    forall p: nat | p < n
      ensures Bytes(g, v', blocks', n)[p] == Bytes(g, v, blocks, n)[p]
    {
      DenseAt(g, v, blocks, n, p);
    }
  }

  /** The copy loop: `chunk` bytes of `buff` go into the block at `off`. */
  method CopyInto(bytes: seq<byte>, off: nat, chunk: nat, buff: seq<byte>) returns (bdata: seq<byte>)
    requires chunk <= |buff| && off + chunk <= |bytes|
    ensures bdata == Patch(bytes, off, buff[..chunk])
    ensures |bdata| == |bytes| && bdata[off..off + chunk] == buff[..chunk]
    ensures bdata[..off] == bytes[..off] && bdata[off + chunk..] == bytes[off + chunk..]
  {
    bdata := bytes;
    for i := 0 to chunk
      invariant |bdata| == |bytes| && bdata == Patch(bytes, off, buff[..i])
    {
      bdata := bdata[off + i := buff[i]];
    }
  }

  lemma SpliceNothing(c: seq<byte>, pos: nat)
    requires pos <= |c|
    ensures Splice(c, pos, []) == c
  {
  }

  /** A block can be had for a position: where zones are several blocks, the source gets a new
      zone at the end of the file only. */
  ghost predicate CanHold(rip: CacheInode, cache: BlockCache, pos: nat)
    requires rip.Owned(cache) && 0 < rip.devinfo.blocksize
    reads rip`zone, rip`size, cache, rip.bitmap
  {
    var g, k := rip.devinfo, Quot(pos, rip.devinfo.blocksize);
    || g.scale == 0
    || HasZone(g, rip.View(cache), k)
    || (pos == rip.size && FreeTyped(g, rip.bitmap.Zones(), cache.blocks))
  }

  /** Writes `chunk` bytes of `buff` at `pos`, which is offset `off` of its block. */
  method WriteChunk(rip: CacheInode, pos: nat, off: nat, chunk: nat, buff: seq<byte>, cache: BlockCache,
        ghost n: nat) returns (err: Error)
    requires FileState(rip, cache, n) && n == (if rip.size < pos then pos else rip.size)
    requires off == Rem(pos, rip.devinfo.blocksize) && 0 < chunk <= |buff| && off + chunk <= rip.devinfo.blocksize
    requires pos + chunk <= MaxBytes(rip.devinfo) && CanHold(rip, cache, pos)
    modifies rip`zone, rip`dirty, cache, rip.bitmap`maps, rip.bitmap`zSearch
    ensures
      var d := if err == OK then buff[..chunk] else [];
      var n' := if n < pos + |d| then pos + |d| else n;
      && FileState(rip, cache, n')
      && Wrote(rip.devinfo, old(rip.View(cache)), old(cache.blocks), old(rip.bitmap.Zones()), n,
               rip.View(cache), cache.blocks, rip.bitmap.Zones(), n', pos, d)
    ensures err == OK || (err == ENOSPC && NearlyFull(rip.bitmap))
    ensures err == OK <==>
            Needs(old(rip.View(cache)), BlockNode(rip.devinfo, Quot(pos, rip.devinfo.blocksize))) <=
            old(rip.bitmap.FreeZones())
    ensures TookLacking(old(rip.View(cache)), old(rip.bitmap.Zones()), rip.View(cache), rip.bitmap.Zones(),
                        rip.bitmap.AllZones(), BlockNode(rip.devinfo, Quot(pos, rip.devinfo.blocksize)), err == OK)
  {
    hide Bitmap.Ready, Bitmap.Zones, FileState, CacheInode.Owned, DenseTo, TypedFile, Grew, Keeps, NearlyFull, Quot,
        Rem, TreeZones, Wrote, MaxZones, MaxBytes, BlockNode, ViewOf, Nodes, HasBlock, HasZone, FreeTyped, FileBlock,
        Needs, DataZones, TookLacking;
    var g := rip.devinfo;
    FileFacts(rip, cache, n);
    OwnedWithin(rip, cache);
    PositionBelow(g, pos);
    ghost var v0, blocks0, marks0 := rip.View(cache), cache.blocks, rip.bitmap.Zones();
    var b;
    b, err := ChunkBlock(rip, pos, off, chunk, cache, n);
    ChunkTook(rip, cache, v0, blocks0, marks0, pos, if err == OK then {b} else {}, err == OK);
    if err != OK {
      ChunkFailed(rip, cache, v0, blocks0, marks0, n, pos);
      return;
    }
    FillChunk(rip, pos, off, chunk, buff, b, cache, v0, blocks0, marks0, n);
  }

  lemma OwnedWithin(rip: CacheInode, cache: BlockCache)
    requires rip.Owned(cache)
    ensures rip.bitmap.Ready() && rip.bitmap.Zones() <= rip.bitmap.AllZones()
  {
    ZonesWithin(rip.bitmap);
  }

  /** What was taken for the block of a chunk. */
  lemma ChunkTook(rip: CacheInode, cache: BlockCache, v: View, blocks: map<nat, Block>, marks: set<nat>, pos: nat,
        extra: set<nat>, ok: bool)
    requires rip.Owned(cache) && RelZone(rip.devinfo, pos) < MaxZones(rip.devinfo)
    requires
      var k := Quot(pos, rip.devinfo.blocksize);
      && Grew(rip.devinfo, v, blocks, marks, rip.View(cache), cache.blocks, rip.bitmap.Zones(),
          BlockNode(rip.devinfo, k), extra)
      && (ok <==> Needs(v, BlockNode(rip.devinfo, k)) <= |rip.bitmap.AllZones() - marks|)
      && (ok ==> HasBlock(rip.devinfo, rip.View(cache), cache.blocks, k))
    requires marks <= rip.bitmap.AllZones()
    ensures TookLacking(v, marks, rip.View(cache), rip.bitmap.Zones(), rip.bitmap.AllZones(),
              BlockNode(rip.devinfo, Quot(pos, rip.devinfo.blocksize)), ok)
  {
    hide Bitmap.Ready, Bitmap.Zones, DataZones, Lacking, TookLacking;
    OwnedWithin(rip, cache);
    BlockLacks(rip, cache, pos);
    GrewTook(v, marks, rip.View(cache), rip.bitmap.Zones(), rip.bitmap.AllZones(),
        BlockNode(rip.devinfo, Quot(pos, rip.devinfo.blocksize)), ok);
  }

  lemma FileFacts(rip: CacheInode, cache: BlockCache, n: nat)
    requires FileState(rip, cache, n)
    ensures rip.Owned(cache) && n <= MaxBytes(rip.devinfo)
    ensures 0 < rip.devinfo.blocksize && rip.View(cache).Keys == Nodes(NrIndirects(rip.devinfo))
    ensures DenseTo(rip.devinfo, rip.View(cache), cache.blocks, n)
              && TypedFile(rip.devinfo, rip.View(cache), cache.blocks)
  {
  }

  /** No block could be had for a chunk. */
  lemma ChunkFailed(rip: CacheInode, cache: BlockCache, v: View, blocks: map<nat, Block>, marks: set<nat>, n: nat,
        pos: nat)
    requires rip.Owned(cache) && pos <= n <= MaxBytes(rip.devinfo)
    requires v.Keys == Nodes(NrIndirects(rip.devinfo)) && DenseTo(rip.devinfo, v, blocks, n)
              && TypedFile(rip.devinfo, v, blocks)
    requires
      var k := Quot(pos, rip.devinfo.blocksize);
      && Grew(rip.devinfo, v, blocks, marks, rip.View(cache), cache.blocks, rip.bitmap.Zones(),
          BlockNode(rip.devinfo, k), {})
      && !HasZone(rip.devinfo, rip.View(cache), k)
    ensures FileState(rip, cache, n)
    ensures Wrote(rip.devinfo, v, blocks, marks, n, rip.View(cache), cache.blocks, rip.bitmap.Zones(), n, pos, [])
  {
    hide Bitmap.Ready, Bitmap.Zones, DenseTo, TypedFile, Grew, Quot, TreeZones, Wrote, MaxZones, MaxBytes, BlockNode,
        ViewOf, Nodes, HasZone;
    OwnedTree(rip, cache);
    ViewFacts(rip.devinfo, rip.zone, cache.blocks);
    NoBlockWrote(rip.devinfo, v, blocks, rip.View(cache), cache.blocks, marks, rip.bitmap.Zones(),
        Quot(pos, rip.devinfo.blocksize), n, pos);
  }

  /** Copies a chunk into its block. */
  method FillChunk(rip: CacheInode, pos: nat, off: nat, chunk: nat, buff: seq<byte>, b: nat, cache: BlockCache,
        ghost v0: View, ghost blocks0: map<nat, Block>, ghost marks0: set<nat>, ghost n: nat)
    requires rip.Owned(cache) && n <= MaxBytes(rip.devinfo)
    requires off == Rem(pos, rip.devinfo.blocksize) && 0 < chunk <= |buff| && off + chunk <= rip.devinfo.blocksize
    requires pos <= n && pos + chunk <= MaxBytes(rip.devinfo)
    requires v0.Keys == Nodes(NrIndirects(rip.devinfo)) && DenseTo(rip.devinfo, v0, blocks0, n)
              && TypedFile(rip.devinfo, v0, blocks0)
    requires
      var k := Quot(pos, rip.devinfo.blocksize);
      && Grew(rip.devinfo, v0, blocks0, marks0, rip.View(cache), cache.blocks, rip.bitmap.Zones(),
          BlockNode(rip.devinfo, k), {b})
      && HasBlock(rip.devinfo, rip.View(cache), cache.blocks, k) && b == FileBlock(rip.devinfo, rip.View(cache), k)
      && ZoneFor(rip.devinfo, v0, blocks0, marks0, k)
      && Keeps(rip.devinfo, v0, blocks0, n, k, off, chunk, cache.blocks[b].bytes)
    modifies cache
    ensures rip.Owned(cache) && rip.View(cache) == old(rip.View(cache))
    ensures
      var n' := if n < pos + chunk then pos + chunk else n;
      && FileState(rip, cache, n')
      && Wrote(rip.devinfo, v0, blocks0, marks0, n, rip.View(cache), cache.blocks, rip.bitmap.Zones(), n', pos,
          buff[..chunk])
  {
    hide Bitmap.Ready, Bitmap.Zones, DenseTo, TypedFile, Grew, Keeps, Quot, Rem, TreeZones, Wrote, Patch, MaxZones,
        MaxBytes, BlockNode, ValidTree, ViewOf, Nodes, HasZone, ZoneFor;
    var g := rip.devinfo;
    OwnedTree(rip, cache);
    ghost var v1, blocks1, marks1 := rip.View(cache), cache.blocks, rip.bitmap.Zones();
    var bytes := cache.blocks[b].bytes;
    var bdata := CopyInto(bytes, off, chunk, buff);
    cache.blocks := cache.blocks[b := Data(bdata)];
    ChunkWritten(g, rip.zone, v0, blocks0, marks0, v1, blocks1, marks1, n, pos, off, buff[..chunk], b, bytes);
  }

  lemma NoBlockWrote(g: DeviceInfo, v: View, blocks: map<nat, Block>, v': View, blocks': map<nat, Block>,
        marks: set<nat>, marks': set<nat>, k: nat, n: nat, pos: nat)
    requires 0 < NrIndirects(g) && v.Keys == Nodes(NrIndirects(g)) && Distinct(v')
    requires Grew(g, v, blocks, marks, v', blocks', marks', BlockNode(g, k), {}) && !HasZone(g, v', k) && pos <= n
    requires TypedFile(g, v, blocks) && DenseTo(g, v, blocks, n)
    ensures TypedFile(g, v', blocks') && DenseTo(g, v', blocks', n)
    ensures Wrote(g, v, blocks, marks, n, v', blocks', marks', n, pos, [])
  {
    NoBlockTyped(g, v, blocks, v', blocks', marks, marks', k, n);
    GrewBlocks(g, v, blocks, marks, v', blocks', marks', k, {});
    TightGrew(g, v, v', k, n, n);
    SpliceNothing(Bytes(g, v, blocks, n), pos);
  }

  lemma ChunkWritten(g: DeviceInfo, zone: seq<nat>, v0: View, blocks0: map<nat, Block>, marks0: set<nat>, v1: View,
        blocks1: map<nat, Block>, marks1: set<nat>, n: nat, pos: nat, off: nat, d: seq<byte>, b: nat, bytes: seq<byte>)
    requires 0 < NrIndirects(g)
    requires ValidTree(g, zone, blocks1) && v1 == ViewOf(g, zone, blocks1)
    requires off == Rem(pos, g.blocksize) && 0 < |d| && off + |d| <= g.blocksize == |bytes|
    requires pos <= n && pos + |d| <= MaxBytes(g)
    requires v0.Keys == Nodes(NrIndirects(g))
    requires DenseTo(g, v0, blocks0, n) && TypedFile(g, v0, blocks0)
    requires
      var k := Quot(pos, g.blocksize);
      && Grew(g, v0, blocks0, marks0, v1, blocks1, marks1, BlockNode(g, k), {b})
      && HasBlock(g, v1, blocks1, k) && b == FileBlock(g, v1, k) && ZoneFor(g, v0, blocks0, marks0, k)
      && Keeps(g, v0, blocks0, n, k, off, |d|, bytes)
    ensures
      var n' := if n < pos + |d| then pos + |d| else n;
      var blocks2 := blocks1[b := Data(Patch(bytes, off, d))];
      && ValidTree(g, zone, blocks2) && ViewOf(g, zone, blocks2) == v1
      && DenseTo(g, v1, blocks2, n') && TypedFile(g, v1, blocks2)
      && Wrote(g, v0, blocks0, marks0, n, v1, blocks2, marks1, n', pos, d)
  {
    var k := Quot(pos, g.blocksize);
    var n' := if n < pos + |d| then pos + |d| else n;
    var blocks2 := blocks1[b := Data(Patch(bytes, off, d))];
    PositionBelow(g, pos);
    PositionBlock(g, zone, blocks1, pos);
    ChunkByte(g, k, 0, pos);
    DataBlockWritten(g, zone, blocks1, blocks2, pos);
    ViewFacts(g, zone, blocks1);
    assert Sound(g, v1);
    GrewOneBlock(g, v0, blocks0, marks0, v1, blocks1, marks1, k, b, Patch(bytes, off, d));
    hide ValidTree, ViewOf, BlockAt, MaxZones, Quot, Rem, Patch;
    ChunkSplice(g, v0, blocks0, v1, blocks2, n, pos, k, off, d, bytes);
    GrewThenFilled(g, v0, blocks0, marks0, v1, blocks1, marks1, blocks2, BlockNode(g, k), b, {b});
    OneBlockTyped(g, v0, blocks0, marks0, v1, blocks2, marks1, k, b);
    GrewBlocks(g, v0, blocks0, marks0, v1, blocks2, marks1, k, {b});
    TightGrew(g, v0, v1, k, n, n');
  }

  /** Two writes in a row, the second where the first ended. */
  lemma WroteWrote(g: DeviceInfo, v: View, blocks: map<nat, Block>, marks: set<nat>, n: nat, v1: View,
        blocks1: map<nat, Block>, marks1: set<nat>, n1: nat, v2: View, blocks2: map<nat, Block>, marks2: set<nat>,
        n2: nat, pos: nat, d: seq<byte>, e: seq<byte>)
    requires 0 < g.blocksize && TreeZones(v) <= marks && TreeZones(v1) <= marks1
    requires Wrote(g, v, blocks, marks, n, v1, blocks1, marks1, n1, pos, d)
    requires Wrote(g, v1, blocks1, marks1, n1, v2, blocks2, marks2, n2, pos + |d|, e)
    ensures Wrote(g, v, blocks, marks, n, v2, blocks2, marks2, n2, pos, d + e)
  {
    SpliceSplice(Bytes(g, v, blocks, n), pos, d, e);
    UntouchedTrans(blocks, blocks1, blocks2, TreeBlocks(g, v1), TreeBlocks(g, v2));
  }

  lemma WroteNothing(g: DeviceInfo, v: View, blocks: map<nat, Block>, marks: set<nat>, n: nat, pos: nat)
    requires 0 < g.blocksize && DenseTo(g, v, blocks, n) && pos <= n
    ensures Wrote(g, v, blocks, marks, n, v, blocks, marks, n, pos, [])
  {
    SpliceNothing(Bytes(g, v, blocks, n), pos);
  }

  // ----- what requests on a sequence of bytes answer

  /** A read of up to `len` bytes from `pos` on: as many as there are. */
  ghost predicate ReadAnswers(c: seq<byte>, pos: nat, len: nat, bytes: seq<byte>, err: Error)
    requires pos <= |c|
  {
    && bytes == c[pos..if len <= |c| - pos then pos + len else |c|]
    && err == if pos == |c| then EOF else OK
  }

  /** A write of `data` at `pos`, which makes `c` to `c'`: all of it, or the first `n` bytes that
      the disk has room for, or nothing if the file would get too long. */
  ghost predicate WriteAnswers(maxsize: nat, c: seq<byte>, pos: nat, data: seq<byte>, n: nat, err: Error, c': seq<byte>)
    requires pos <= |c|
  {
    && n <= |data| && c' == Splice(c, pos, data[..n])
    && (err == EFBIG <==> pos + |data| > maxsize) && (err == EFBIG ==> n == 0)
    && (err != EFBIG ==> err == if n == |data| then OK else ENOSPC)
  }

  lemma SpliceNone(c: seq<byte>, pos: nat, data: seq<byte>)
    requires pos <= |c|
    ensures Splice(c, pos, data[..0]) == c
  {
  }

  // ----- reading and writing a file

  ghost predicate ValidFile(rip: CacheInode, cache: BlockCache)
    reads rip`zone, rip`size, cache, rip.bitmap
  {
    && FileState(rip, cache, rip.size)
    && rip.size <= rip.devinfo.maxsize <= MaxBytes(rip.devinfo)
    && rip.devinfo.maxsize <= 0x7FFF_FFFF
  }

  /** The file as a sequence of bytes. */
  ghost function Contents(rip: CacheInode, cache: BlockCache): (c: seq<byte>)
    requires ValidFile(rip, cache)
    reads rip`zone, rip`size, cache, rip.bitmap
    ensures |c| == rip.size
  {
    Bytes(rip.devinfo, rip.View(cache), cache.blocks, rip.size)
  }

  /** All blocks that a file of `size` bytes needs to be written up to `end` can be had: zones
      are single blocks; or no new zone is needed; or one at most, at the end of the file, and
      its other blocks do not hold anything else. */
  ghost predicate Reaches(g: DeviceInfo, v: View, blocks: map<nat, Block>, marks: set<nat>, size: nat, end: nat) {
    || g.scale == 0
    || ZonesUpTo(g, v, size, end)
    || (FreeTyped(g, marks, blocks) && ZonesUpTo(g, v, size + 1, end))
  }

  /** The zones that start from `from` on and below `end` are there. */
  ghost predicate ZonesUpTo(g: DeviceInfo, v: View, from: nat, end: nat) {
    forall j: nat | from <= j * ZoneSize(g) < end && DataNode(g, j) in v :: v[DataNode(g, j)] != NO_ZONE
  }

  lemma FreeTypedStays(g: DeviceInfo, v: View, blocks: map<nat, Block>, marks: set<nat>, n: nat, v': View,
        blocks': map<nat, Block>, marks': set<nat>, n': nat, pos: nat, d: seq<byte>)
    requires 0 < g.blocksize && Wrote(g, v, blocks, marks, n, v', blocks', marks', n', pos, d)
    requires TreeZones(v') <= marks' && FreeTyped(g, marks, blocks)
    ensures FreeTyped(g, marks', blocks')
  {
    forall z: nat, w: nat | IsDataZone(g, z) && z !in marks' && w < Pow2(g.scale) && ZoneBlock(g, z, w) in blocks'
      ensures IsData(g, blocks'[ZoneBlock(g, z, w)])
    {
      InTreeBlocks(g, v', z, w);
    }
  }

  /** Writing leaves it so. */
  lemma ReachesStays(g: DeviceInfo, v: View, blocks: map<nat, Block>, marks: set<nat>, n: nat, v': View,
        blocks': map<nat, Block>, marks': set<nat>, n': nat, pos: nat, d: seq<byte>, size: nat, end: nat)
    requires 0 < g.blocksize && Wrote(g, v, blocks, marks, n, v', blocks', marks', n', pos, d)
    requires v'.Keys == v.Keys && TreeZones(v') <= marks'
    requires Reaches(g, v, blocks, marks, size, end)
    ensures Reaches(g, v', blocks', marks', size, end)
  {
    if FreeTyped(g, marks, blocks) {
      FreeTypedStays(g, v, blocks, marks, n, v', blocks', marks', n', pos, d);
    }
  }

  /** A block within a file, or right at its end, that has no zone is the first of its zone. */
  lemma ReachesBlock(g: DeviceInfo, v: View, blocks: map<nat, Block>, marks: set<nat>, size: nat, n: nat, end: nat,
        q: nat)
    requires 0 < NrIndirects(g) && v.Keys == Nodes(NrIndirects(g)) && DenseTo(g, v, blocks, n)
    requires n == (if size < q then q else size) && q < end && q < MaxBytes(g)
    requires Reaches(g, v, blocks, marks, size, end)
    ensures
      var k := Quot(q, g.blocksize);
      g.scale == 0 || HasZone(g, v, k) || (q == size && FreeTyped(g, marks, blocks))
  {
    var k := Quot(q, g.blocksize);
    var j := Quot(k, Pow2(g.scale));
    PositionBelow(g, q);
    DataNodeValid(g, j);
    if !HasZone(g, v, k) {
      FirstOfZone(g, v, blocks, n, q);
      assert j * ZoneSize(g) == q;
    }
  }

  lemma FirstOfZone(g: DeviceInfo, v: View, blocks: map<nat, Block>, n: nat, q: nat)
    requires 0 < g.blocksize && DenseTo(g, v, blocks, n) && q <= n
    requires !HasZone(g, v, Quot(q, g.blocksize))
    ensures Quot(Quot(q, g.blocksize), Pow2(g.scale)) * ZoneSize(g) == q == n
  {
    hide DenseTo, Quot, HasZone;
    var k := Quot(q, g.blocksize);
    ZoneOfBlock(g, v, k);
    NoBlockPast(g, v, blocks, n, Quot(k, Pow2(g.scale)) * Pow2(g.scale));
    ZoneStart(g, k);
    BlockBefore(g, q);
    assert (Quot(k, Pow2(g.scale)) * Pow2(g.scale)) * g.blocksize == Quot(k, Pow2(g.scale)) * ZoneSize(g);
  }

  lemma BlockBefore(g: DeviceInfo, q: nat)
    requires 0 < g.blocksize
    ensures Quot(q, g.blocksize) * g.blocksize <= q
  {
    DivMod(q, g.blocksize);
  }

  /** The first block of a zone lies in that zone. */
  lemma ZoneOfBlock(g: DeviceInfo, v: View, k: nat)
    ensures HasZone(g, v, Quot(k, Pow2(g.scale)) * Pow2(g.scale)) <==> HasZone(g, v, k)
  {
    DivModUnique(Quot(k, Pow2(g.scale)) * Pow2(g.scale), Pow2(g.scale), Quot(k, Pow2(g.scale)), 0);
  }

  lemma NoBlockPast(g: DeviceInfo, v: View, blocks: map<nat, Block>, n: nat, i: nat)
    requires 0 < g.blocksize && DenseTo(g, v, blocks, n) && !HasZone(g, v, i)
    ensures n <= i * g.blocksize
  {
    assert !HasBlock(g, v, blocks, i);
  }

  /** The bytes `d` have been written at `pos`, to a file that was `v`, `blocks` and `marks`
      before; `n` bytes are there now. The size is not yet updated. */
  ghost predicate Progress(rip: CacheInode, cache: BlockCache, v: View, blocks: map<nat, Block>, marks: set<nat>,
        pos: nat, d: seq<byte>, n: nat)
    reads rip`zone, rip`size, cache, rip.bitmap
  {
    && FileState(rip, cache, n)
    && Wrote(rip.devinfo, v, blocks, marks, rip.size, rip.View(cache), cache.blocks, rip.bitmap.Zones(), n, pos, d)
  }

  // ----- which writes there is room for

  /** The block of position `q` needs place `p`. */
  ghost predicate NeedsPlace(g: DeviceInfo, q: nat, p: Node)
    requires 0 < g.blocksize
  {
    p == BlockNode(g, Quot(q, g.blocksize)) || Above(p, BlockNode(g, Quot(q, g.blocksize)))
  }

  /** The empty places that the blocks of the positions from `pos` up to `end` need. */
  ghost function LackingTo(g: DeviceInfo, v: View, pos: nat, end: nat): set<Node>
    requires 0 < g.blocksize
  {
    set p | p in v && v[p] == NO_ZONE && exists q: nat :: pos <= q < end && NeedsPlace(g, q, p)
  }

  /** How many zones the positions from `pos` up to `end` need that are not there. */
  ghost function ZonesFor(g: DeviceInfo, v: View, pos: nat, end: nat): nat
    requires 0 < g.blocksize
  {
    |LackingTo(g, v, pos, end)|
  }

  /** What a stretch of positions lacks is what its positions lack, each by itself. */
  lemma LackingToMeans(g: DeviceInfo, v: View, pos: nat, mid: nat, end: nat)
    requires 0 < g.blocksize && pos <= mid <= end
    ensures LackingTo(g, v, pos, pos) == {}
    ensures LackingTo(g, v, pos, pos + 1) == Lacking(v, DataNode(g, RelZone(g, pos)))
    ensures LackingTo(g, v, pos, end) == LackingTo(g, v, pos, mid) + LackingTo(g, v, mid, end)
  {
    assert BlockNode(g, Quot(pos, g.blocksize)) == DataNode(g, RelZone(g, pos));
    hide BlockNode, Quot, Above, DataNode;
    forall p | p in Lacking(v, DataNode(g, RelZone(g, pos)))
      ensures p in LackingTo(g, v, pos, pos + 1)
    {
      assert NeedsPlace(g, pos, p);
    }
  }

  /** What one position needs, by numbers, for the `k`th zone of the file: one zone if that is
      not there, and one for each indirect block on the way to it that is not there. */
  lemma ZonesForOne(g: DeviceInfo, zone: seq<nat>, blocks: map<nat, Block>, pos: nat)
    requires |zone| == V2_NR_TZONES && 0 < g.blocksize / 4
    ensures
      var n, k := g.blocksize / 4, RelZone(g, pos);
      var need := ZonesFor(g, ViewOf(g, zone, blocks), pos, pos + 1);
      var there := BlockAt(g, zone, blocks, pos) != NO_BLOCK;
      && ZonesFor(g, ViewOf(g, zone, blocks), pos, pos) == 0
      && (k < 7 ==> need == if there then 0 else 1)
      && (7 <= k < 7 + n ==> need == if there then 0 else if zone[7] != 0 then 1 else 2)
      && (7 + n <= k < 7 + n + n * n ==>
            need == if there then 0
                    else if zone[8] == 0 then 3
                    else if Entry(g, blocks, zone[8], (k - 7 - n) / n) == 0 then 2 else 1)
  {
    LackingToMeans(g, ViewOf(g, zone, blocks), pos, pos, pos);
    LackingMeans(g, zone, blocks, RelZone(g, pos));
    BlockAtMeans(g, zone, blocks, pos);
    hide LackingTo, Lacking, DataNode, ZoneAt, BlockAt, ViewOf;
  }

  /** A chunk within one block needs what that block needs. */
  lemma LackingMore(g: DeviceInfo, v: View, pos: nat, position: nat, chunk: nat, p: Node)
    requires 0 < g.blocksize && pos <= position && 0 < chunk && Rem(position, g.blocksize) + chunk <= g.blocksize
    ensures
      var m := BlockNode(g, Quot(position, g.blocksize));
      p in LackingTo(g, v, pos, position + chunk) <==>
      p in LackingTo(g, v, pos, position) || (p in v && v[p] == NO_ZONE && (p == m || Above(p, m)))
  {
    var m := BlockNode(g, Quot(position, g.blocksize));
    forall q: nat | position <= q < position + chunk
      ensures Quot(q, g.blocksize) == Quot(position, g.blocksize)
    {
      SameQuot(position, q, g.blocksize);
    }
    hide BlockNode, Quot, Above;
    assert NeedsPlace(g, position, p) <==> p == m || Above(p, m);
  }

  lemma SameQuot(a: nat, b: nat, d: nat)
    requires 0 < d && a <= b < a + d - Rem(a, d)
    ensures Quot(b, d) == Quot(a, d)
  {
    DivMod(a, d);
    DivModUnique(b, d, a / d, a % d + (b - a));
  }

  /** One chunk takes what it lacks, or there was not enough room for the write so far and one
      more byte. */
  lemma ChunkSpent(g: DeviceInfo, v: View, marks: set<nat>, v1: View, marks1: set<nat>, v2: View, marks2: set<nat>,
        all: set<nat>, pos: nat, position: nat, chunk: nat, ok: bool)
    requires 0 < g.blocksize && pos <= position && 0 < chunk && Rem(position, g.blocksize) + chunk <= g.blocksize
    requires Spent(v, marks, v1, marks1, LackingTo(g, v, pos, position)) && marks <= all
    requires TookLacking(v1, marks1, v2, marks2, all, BlockNode(g, Quot(position, g.blocksize)), ok)
    ensures ok ==>
              && Spent(v, marks, v2, marks2, LackingTo(g, v, pos, position + chunk))
              && |LackingTo(g, v, pos, position + chunk)| <= |all - marks|
    ensures !ok ==> |LackingTo(g, v, pos, position + 1)| > |all - marks|
  {
    var c := if ok then chunk else 1;
    forall p
      ensures p in LackingTo(g, v, pos, position + c) <==>
              p in LackingTo(g, v, pos, position)
              || (p in v && v[p] == NO_ZONE && (p == BlockNode(g, Quot(position, g.blocksize))
                  || Above(p, BlockNode(g, Quot(position, g.blocksize)))))
    {
      LackingMore(g, v, pos, position, c, p);
    }
    LackingEmpty(g, v, pos, position);
    hide LackingTo, Spent, TookLacking, BlockNode, Quot, Rem, Above;
    SpentMore(v, marks, v1, marks1, v2, marks2, all, LackingTo(g, v, pos, position),
        BlockNode(g, Quot(position, g.blocksize)), LackingTo(g, v, pos, position + c), ok);
  }

  lemma LackingEmpty(g: DeviceInfo, v: View, pos: nat, end: nat)
    requires 0 < g.blocksize
    ensures LackingTo(g, v, pos, end) <= v.Keys && forall p | p in LackingTo(g, v, pos, end) :: v[p] == NO_ZONE
  {
  }

  /** One chunk of a write, after the bytes `done`. */
  method NextChunk(rip: CacheInode, position: nat, off: nat, chunk: nat, data: seq<byte>, cache: BlockCache,
        ghost v0: View, ghost blocks0: map<nat, Block>, ghost marks0: set<nat>, ghost pos: nat,
        ghost done: seq<byte>, ghost n: nat, ghost end: nat) returns (err: Error)
    requires 0 < chunk <= |data| && position == pos + |done|
    requires Progress(rip, cache, v0, blocks0, marks0, pos, done, n) && TreeZones(v0) <= marks0
    requires n == (if rip.size < position then position else rip.size)
    requires off == Rem(position, rip.devinfo.blocksize) && off + chunk <= rip.devinfo.blocksize
    requires position + chunk <= MaxBytes(rip.devinfo) && position + chunk <= end
    requires Reaches(rip.devinfo, rip.View(cache), cache.blocks, rip.bitmap.Zones(), rip.size, end)
    requires marks0 <= rip.bitmap.AllZones()
    requires Spent(v0, marks0, rip.View(cache), rip.bitmap.Zones(), LackingTo(rip.devinfo, v0, pos, position))
    modifies rip`zone, rip`dirty, cache, rip.bitmap`maps, rip.bitmap`zSearch
    ensures rip.bitmap.Ready() && |rip.zone| == V2_NR_TZONES && 0 < rip.devinfo.blocksize
    ensures err == OK ==>
              && Spent(v0, marks0, rip.View(cache), rip.bitmap.Zones(),
                       LackingTo(rip.devinfo, v0, pos, position + chunk))
              && |LackingTo(rip.devinfo, v0, pos, position + chunk)| <= |rip.bitmap.AllZones() - marks0|
    ensures err != OK ==> |LackingTo(rip.devinfo, v0, pos, position + 1)| > |rip.bitmap.AllZones() - marks0|
    ensures Reaches(rip.devinfo, rip.View(cache), cache.blocks, rip.bitmap.Zones(), rip.size, end)
    ensures err == OK ==>
              Progress(rip, cache, v0, blocks0, marks0, pos, done + data[..chunk],
                       if n < position + chunk then position + chunk else n)
    ensures err != OK ==> Progress(rip, cache, v0, blocks0, marks0, pos, done, n)
    ensures err == OK || (err == ENOSPC && NearlyFull(rip.bitmap))
  {
    hide Progress, Wrote, FileState, Bitmap.Ready, Bitmap.Zones, MaxZones, MaxBytes, NearlyFull, ValidTree, Rem, Quot,
        TreeZones, NrIndirects, ViewOf, Reaches, FreeTyped, HasZone, LackingTo, Spent, TookLacking, Lacking, DataZones,
        BlockNode;
    ProgressFacts(rip, cache, v0, blocks0, marks0, pos, done, n);
    ghost var v1, blocks1, marks1 := rip.View(cache), cache.blocks, rip.bitmap.Zones();
    ChunkReached(rip, cache, position, n, end);
    err := WriteChunk(rip, position, off, chunk, data, cache, n);
    ghost var e := if err == OK then data[..chunk] else [];
    ghost var n' := if n < position + |e| then position + |e| else n;
    assert done + [] == done;
    FileFacts(rip, cache, n');
    ChunkSpent(rip.devinfo, v0, marks0, v1, marks1, rip.View(cache), rip.bitmap.Zones(), rip.bitmap.AllZones(), pos,
        position, chunk, err == OK);
    StillReached(rip, cache, v1, blocks1, marks1, n, n', position, e, end);
    ProgressOn(rip, cache, v0, blocks0, marks0, v1, blocks1, marks1, n, n', pos, done, e);
  }

  lemma ProgressFacts(rip: CacheInode, cache: BlockCache, v: View, blocks: map<nat, Block>, marks: set<nat>, pos: nat,
        d: seq<byte>, n: nat)
    requires Progress(rip, cache, v, blocks, marks, pos, d, n)
    ensures FileState(rip, cache, n) && rip.Owned(cache) && |rip.zone| == V2_NR_TZONES && 0 < rip.devinfo.blocksize
    ensures TreeZones(rip.View(cache)) <= rip.bitmap.Zones()
    ensures Wrote(rip.devinfo, v, blocks, marks, rip.size, rip.View(cache), cache.blocks, rip.bitmap.Zones(), n, pos, d)
  {
  }

  /** One more chunk, or none, after those written. */
  lemma ProgressOn(rip: CacheInode, cache: BlockCache, v0: View, blocks0: map<nat, Block>, marks0: set<nat>, v1: View,
        blocks1: map<nat, Block>, marks1: set<nat>, n: nat, n': nat, pos: nat, done: seq<byte>, e: seq<byte>)
    requires FileState(rip, cache, n') && 0 < rip.devinfo.blocksize
    requires TreeZones(v0) <= marks0 && TreeZones(v1) <= marks1
    requires Wrote(rip.devinfo, v0, blocks0, marks0, rip.size, v1, blocks1, marks1, n, pos, done)
    requires Wrote(rip.devinfo, v1, blocks1, marks1, n, rip.View(cache), cache.blocks, rip.bitmap.Zones(), n',
                   pos + |done|, e)
    ensures rip.bitmap.Ready() && |rip.zone| == V2_NR_TZONES
    ensures Progress(rip, cache, v0, blocks0, marks0, pos, done + e, n')
  {
    hide Wrote, Bitmap.Ready, Bitmap.Zones, DenseTo, TypedFile;
    WroteWrote(rip.devinfo, v0, blocks0, marks0, rip.size, v1, blocks1, marks1, n, rip.View(cache), cache.blocks,
        rip.bitmap.Zones(), n', pos, done, e);
  }

  lemma ChunkReached(rip: CacheInode, cache: BlockCache, position: nat, n: nat, end: nat)
    requires FileState(rip, cache, n) && n == (if rip.size < position then position else rip.size)
    requires position < end && position < MaxBytes(rip.devinfo)
    requires Reaches(rip.devinfo, rip.View(cache), cache.blocks, rip.bitmap.Zones(), rip.size, end)
    ensures 0 < rip.devinfo.blocksize && CanHold(rip, cache, position)
    ensures rip.View(cache).Keys == Nodes(NrIndirects(rip.devinfo))
  {
    hide Bitmap.Ready, Bitmap.Zones, Reaches, FreeTyped, DenseTo, TypedFile;
    ViewFacts(rip.devinfo, rip.zone, cache.blocks);
    ReachesBlock(rip.devinfo, rip.View(cache), cache.blocks, rip.bitmap.Zones(), rip.size, n, end, position);
  }

  lemma StillReached(rip: CacheInode, cache: BlockCache, v: View, blocks: map<nat, Block>, marks: set<nat>, n: nat,
        n': nat, position: nat, d: seq<byte>, end: nat)
    requires FileState(rip, cache, n') && v.Keys == Nodes(NrIndirects(rip.devinfo)) && 0 < rip.devinfo.blocksize
    requires Wrote(rip.devinfo, v, blocks, marks, n, rip.View(cache), cache.blocks, rip.bitmap.Zones(), n', position, d)
    requires Reaches(rip.devinfo, v, blocks, marks, rip.size, end)
    ensures Reaches(rip.devinfo, rip.View(cache), cache.blocks, rip.bitmap.Zones(), rip.size, end)
  {
    hide Bitmap.Ready, Bitmap.Zones, Reaches, Wrote, DenseTo, TypedFile;
    ViewFacts(rip.devinfo, rip.zone, cache.blocks);
    ReachesStays(rip.devinfo, v, blocks, marks, n, rip.View(cache), cache.blocks, rip.bitmap.Zones(), n', position, d,
        rip.size, end);
  }

  /** Before the first chunk. */
  lemma WriteStart(rip: CacheInode, cache: BlockCache, pos: nat)
    requires ValidFile(rip, cache) && pos <= rip.size
    ensures 0 < rip.devinfo.blocksize && rip.devinfo.maxsize <= MaxBytes(rip.devinfo)
    ensures |rip.zone| == V2_NR_TZONES && rip.bitmap.Ready() && TreeZones(rip.View(cache)) <= rip.bitmap.Zones()
    ensures Progress(rip, cache, rip.View(cache), cache.blocks, rip.bitmap.Zones(), pos, [], rip.size)
    ensures rip.bitmap.Zones() <= rip.bitmap.AllZones() && LackingTo(rip.devinfo, rip.View(cache), pos, pos) == {}
    ensures Spent(rip.View(cache), rip.bitmap.Zones(), rip.View(cache), rip.bitmap.Zones(), {})
  {
    OwnedWithin(rip, cache);
    WroteNothing(rip.devinfo, rip.View(cache), cache.blocks, rip.bitmap.Zones(), rip.size, pos);
  }

  /** The chunks of a write, up to the first that fails. */
  method WriteChunks(rip: CacheInode, buf: seq<byte>, pos: nat, cache: BlockCache) returns (cum: nat, err: Error)
    requires ValidFile(rip, cache) && pos <= rip.size
    requires pos + |buf| <= rip.devinfo.maxsize
    requires Reaches(rip.devinfo, rip.View(cache), cache.blocks, rip.bitmap.Zones(), rip.size, pos + |buf|)
    modifies rip`zone, rip`dirty, cache, rip.bitmap`maps, rip.bitmap`zSearch
    ensures cum <= |buf| && (err == OK <==> cum == |buf|)
    ensures rip.bitmap.Ready()
    ensures Progress(rip, cache, old(rip.View(cache)), old(cache.blocks), old(rip.bitmap.Zones()), pos, buf[..cum],
                     if rip.size < pos + cum then pos + cum else rip.size)
    ensures err == OK || (err == ENOSPC && NearlyFull(rip.bitmap))
    ensures 0 < rip.devinfo.blocksize
    ensures ZonesFor(rip.devinfo, old(rip.View(cache)), pos, pos + cum) <= old(rip.bitmap.FreeZones())
    ensures cum < |buf| ==>
              ZonesFor(rip.devinfo, old(rip.View(cache)), pos, pos + cum + 1) > old(rip.bitmap.FreeZones())
  {
    hide Bitmap.Ready, Bitmap.Zones, MaxZones, MaxBytes, NearlyFull, Progress, ValidFile, Rem, TreeZones,
        NrIndirects, CacheInode.View, Reaches, Spent, LackingTo, DataZones;
    var bsize := rip.devinfo.blocksize;
    WriteStart(rip, cache, pos);
    ghost var v0, blocks0, marks0 := rip.View(cache), cache.blocks, rip.bitmap.Zones();
    assert buf[..0] == [];
    var nbytes := |buf|;
    var data, position := buf, pos;
    ghost var n := rip.size;
    cum := 0;
    err := OK;
    while nbytes != 0
      invariant cum <= |buf| && nbytes == |buf| - cum && position == pos + cum && data == buf[cum..]
      invariant n == if rip.size < position then position else rip.size
      invariant Progress(rip, cache, v0, blocks0, marks0, pos, buf[..cum], n)
      invariant rip.bitmap.Ready() && |rip.zone| == V2_NR_TZONES && err == OK
      invariant Spent(v0, marks0, rip.View(cache), rip.bitmap.Zones(), LackingTo(rip.devinfo, v0, pos, position))
      invariant |LackingTo(rip.devinfo, v0, pos, position)| <= |rip.bitmap.AllZones() - marks0|
      invariant Reaches(rip.devinfo, rip.View(cache), cache.blocks, rip.bitmap.Zones(), rip.size, pos + |buf|)
      decreases nbytes
    {
      var off := Rem(position, bsize);
      var chunk: nat := if nbytes < bsize - off then nbytes else bsize - off;
      assert buf[..cum] + data[..chunk] == buf[..cum + chunk];
      err := NextChunk(rip, position, off, chunk, data, cache, v0, blocks0, marks0, pos, buf[..cum], n, pos + |buf|);
      if err != OK {
        break;
      }
      data := data[chunk..];
      nbytes := nbytes - chunk;
      cum := cum + chunk;
      position := position + chunk;
      n := if n < position then position else n;
    }
  }

  function I32(n: nat): int {
    if n < 0x8000_0000 then n else n - 0x1_0000_0000
  }

  /** Writes `data` at `pos`, no further than the end of the file. All of it arrives, or as many
      bytes as there are free zones for: the file holds exactly the first `n` bytes of it. Only
      regular files and directories record a new size. */
  method Write(rip: CacheInode, data: seq<byte>, pos: nat, cache: BlockCache) returns (n: nat, err: Error)
    requires ValidFile(rip, cache)
    requires pos <= rip.size
    requires Reaches(rip.devinfo, rip.View(cache), cache.blocks, rip.bitmap.Zones(), rip.size, pos + |data|)
    modifies rip`zone, rip`size, rip`dirty, cache, rip.bitmap`maps, rip.bitmap`zSearch
    ensures ValidFile(rip, cache) && n <= |data| && 0 < rip.devinfo.blocksize
    ensures err == EFBIG <==> pos + |data| > rip.devinfo.maxsize
    ensures err == EFBIG ==>
              n == 0 && rip.size == old(rip.size) && rip.zone == old(rip.zone) && cache.blocks == old(cache.blocks)
              && rip.bitmap.Zones() == old(rip.bitmap.Zones())
    ensures err != EFBIG ==> if n == |data| then err == OK else err == ENOSPC && NearlyFull(rip.bitmap)
    ensures err == OK ==> rip.dirty
    ensures err != EFBIG ==>
              && ZonesFor(rip.devinfo, old(rip.View(cache)), pos, pos + n) <= old(rip.bitmap.FreeZones())
              && (n < |data| ==>
                    ZonesFor(rip.devinfo, old(rip.View(cache)), pos, pos + n + 1) > old(rip.bitmap.FreeZones()))
    ensures err != EFBIG && (rip.ftype == REGULAR || rip.ftype == DIRECTORY) ==>
              && rip.size == (if old(rip.size) < pos + n then pos + n else old(rip.size))
              && Contents(rip, cache) == Splice(old(Contents(rip, cache)), pos, data[..n])
              && Wrote(rip.devinfo, old(rip.View(cache)), old(cache.blocks), old(rip.bitmap.Zones()), old(rip.size),
                       rip.View(cache), cache.blocks, rip.bitmap.Zones(), rip.size, pos, data[..n])
    ensures rip.ftype == REGULAR || rip.ftype == DIRECTORY ==>
              WriteAnswers(rip.devinfo.maxsize, old(Contents(rip, cache)), pos, data, n, err, Contents(rip, cache))
  {
    hide ValidFile, Contents, FileState, Wrote, Progress, ZonesFor, Bitmap.FreeZones, Reaches, NearlyFull, WriteAnswers,
        Splice, Bitmap.Ready, Bitmap.Zones, MaxBytes, DenseTo, Bytes;
    WriteFacts(rip, cache, pos, data);
    var fsize := rip.size;
    ghost var v0, blocks0, marks0, c0 := rip.View(cache), cache.blocks, rip.bitmap.Zones(), Contents(rip, cache);
    if pos > rip.devinfo.maxsize - |data| {
      return 0, EFBIG;
    }
    n, err := WriteChunks(rip, data, pos, cache);
    ghost var extent := if fsize < pos + n then pos + n else fsize;
    ProgressFacts(rip, cache, v0, blocks0, marks0, pos, data[..n], extent);
    var position := pos + n;
    if rip.ftype == REGULAR || rip.ftype == DIRECTORY {
      if position > fsize {
        rip.size := I32(position);
      }
    }
    Written(rip, cache, v0, blocks0, marks0, fsize, c0, extent, pos, data, n, err);
    if err == OK {
      rip.dirty := true;
    }
  }

  /** Before a write. */
  lemma WriteFacts(rip: CacheInode, cache: BlockCache, pos: nat, data: seq<byte>)
    requires ValidFile(rip, cache) && pos <= rip.size
    ensures 0 < rip.devinfo.blocksize && |rip.zone| == V2_NR_TZONES && rip.bitmap.Ready()
    ensures rip.size <= rip.devinfo.maxsize <= MaxBytes(rip.devinfo) && rip.devinfo.maxsize <= 0x7FFF_FFFF
    ensures DenseTo(rip.devinfo, rip.View(cache), cache.blocks, rip.size)
    ensures Contents(rip, cache) == Bytes(rip.devinfo, rip.View(cache), cache.blocks, rip.size)
    ensures pos + |data| > rip.devinfo.maxsize ==>
              WriteAnswers(rip.devinfo.maxsize, Contents(rip, cache), pos, data, 0, EFBIG, Contents(rip, cache))
  {
    SpliceNone(Contents(rip, cache), pos, data);
  }

  /** After its chunks, when the size is recorded. */
  lemma Written(rip: CacheInode, cache: BlockCache, v: View, blocks: map<nat, Block>, marks: set<nat>, n0: nat,
        c: seq<byte>, extent: nat, pos: nat, data: seq<byte>, n: nat, err: Error)
    requires FileState(rip, cache, extent) && 0 < rip.devinfo.blocksize && n <= |data| && pos <= n0
    requires extent == (if n0 < pos + n then pos + n else n0) && extent <= rip.devinfo.maxsize
    requires rip.devinfo.maxsize <= MaxBytes(rip.devinfo) && rip.devinfo.maxsize <= 0x7FFF_FFFF
    requires pos + |data| <= rip.devinfo.maxsize && err == if n == |data| then OK else ENOSPC
    requires DenseTo(rip.devinfo, v, blocks, n0) && c == Bytes(rip.devinfo, v, blocks, n0)
    requires Wrote(rip.devinfo, v, blocks, marks, n0, rip.View(cache), cache.blocks, rip.bitmap.Zones(), extent, pos,
                   data[..n])
    requires rip.size == if rip.ftype == REGULAR || rip.ftype == DIRECTORY then extent else n0
    ensures ValidFile(rip, cache)
    ensures rip.size == extent ==>
              && Contents(rip, cache) == Splice(c, pos, data[..n])
              && WriteAnswers(rip.devinfo.maxsize, c, pos, data, n, err, Contents(rip, cache))
  {
    hide Splice, CacheInode.Owned, TypedFile, Accounted, TreeZones, Untouched, Tight;
  }

  /** A stretch of one block is a stretch of the file. */
  lemma BlockSlice(g: DeviceInfo, v: View, blocks: map<nat, Block>, n: nat, pos: nat, len: nat)
    requires 0 < g.blocksize && DenseTo(g, v, blocks, n) && pos < n && pos + len <= n
    requires Rem(pos, g.blocksize) + len <= g.blocksize
    ensures HasBlock(g, v, blocks, Quot(pos, g.blocksize))
    ensures
      var off := Rem(pos, g.blocksize);
      BlockBytes(g, v, blocks, Quot(pos, g.blocksize))[off..off + len] == Bytes(g, v, blocks, n)[pos..pos + len]
  {
    DenseAt(g, v, blocks, n, pos);
    var k, off := Quot(pos, g.blocksize), Rem(pos, g.blocksize);
    var x, y := BlockBytes(g, v, blocks, k)[off..off + len], Bytes(g, v, blocks, n)[pos..pos + len];
    forall i | 0 <= i < len
      ensures x[i] == y[i]
    {
      DivMod(pos, g.blocksize);
      DivModUnique(pos + i, g.blocksize, k, off + i);
    }
  }

  /** The copy loop of a read. */
  method CopyOut(b: array<byte>, at: nat, bytes: seq<byte>, from: nat, len: nat)
    requires at + len <= b.Length && from + len <= |bytes|
    modifies b
    ensures b[..] == old(b[..at]) + bytes[from..from + len] + old(b[at + len..])
  {
    for i := 0 to len
      invariant forall j | 0 <= j < b.Length :: b[j] == if at <= j < at + i then bytes[from + (j - at)] else old(b[j])
    {
      b[at + i] := bytes[from + i];
    }
    assert b[..at] == old(b[..at]) && b[at + len..] == old(b[at + len..]);
    assert b[at..at + len] == bytes[from..from + len];
    assert b[..] == b[..at] + b[at..at + len] + b[at + len..];
  }

  /** The bytes of the block of a position. */
  method FetchBlock(rip: CacheInode, pos: nat, cache: BlockCache) returns (bdata: seq<byte>)
    requires ValidFile(rip, cache) && pos < rip.size
    modifies cache
    ensures cache.blocks == old(cache.blocks)
    ensures ValidFile(rip, cache) && Contents(rip, cache) == old(Contents(rip, cache))
    ensures HasBlock(rip.devinfo, rip.View(cache), cache.blocks, Quot(pos, rip.devinfo.blocksize))
    ensures bdata == BlockBytes(rip.devinfo, rip.View(cache), cache.blocks, Quot(pos, rip.devinfo.blocksize))
  {
    var g := rip.devinfo;
    PositionBelow(g, pos);
    PositionBlock(g, rip.zone, cache.blocks, pos);
    DenseAt(g, rip.View(cache), cache.blocks, rip.size, pos);
    var bnum := ReadMap(rip, pos, cache);
    cache.GetBlock(bnum, FULL_DATA_BLOCK, NORMAL, g.blocksize);
    bdata := cache.blocks[bnum].bytes;
  }

  /** `n` bytes of `c` from `pos` on stand in `b`, and the rest of `b` is as in `was`. */
  ghost predicate HasRead(b: array<byte>, was: seq<byte>, c: seq<byte>, pos: nat, n: nat)
    reads b
  {
    && n <= b.Length == |was| && pos + n <= |c|
    && b[..n] == c[pos..pos + n]
    && b[n..] == was[n..]
  }

  lemma ContentsSlice(rip: CacheInode, cache: BlockCache, pos: nat, len: nat)
    requires ValidFile(rip, cache) && pos < rip.size && pos + len <= rip.size
    requires 0 < rip.devinfo.blocksize && Rem(pos, rip.devinfo.blocksize) + len <= rip.devinfo.blocksize
    ensures |rip.zone| == V2_NR_TZONES
    ensures HasBlock(rip.devinfo, rip.View(cache), cache.blocks, Quot(pos, rip.devinfo.blocksize))
    ensures |BlockBytes(rip.devinfo, rip.View(cache), cache.blocks, Quot(pos, rip.devinfo.blocksize))| ==
              rip.devinfo.blocksize
    ensures
      var off := Rem(pos, rip.devinfo.blocksize);
      BlockBytes(rip.devinfo, rip.View(cache), cache.blocks, Quot(pos, rip.devinfo.blocksize))[off..off + len] ==
          Contents(rip, cache)[pos..pos + len]
  {
    BlockSlice(rip.devinfo, rip.View(cache), cache.blocks, rip.size, pos, len);
  }

  /** Copies the next `chunk` bytes, all from one block. */
  method ReadChunk(rip: CacheInode, b: array<byte>, pos: nat, n: nat, chunk: nat, cache: BlockCache,
        ghost was: seq<byte>)
    requires ValidFile(rip, cache) && pos + n < rip.size && pos + n + chunk <= rip.size
    requires Rem(pos + n, rip.devinfo.blocksize) + chunk <= rip.devinfo.blocksize && n + chunk <= b.Length
    requires HasRead(b, was, Contents(rip, cache), pos, n)
    modifies b, cache
    ensures cache.blocks == old(cache.blocks)
    ensures ValidFile(rip, cache) && Contents(rip, cache) == old(Contents(rip, cache))
    ensures HasRead(b, was, Contents(rip, cache), pos, n + chunk)
  {
    hide ValidFile, Contents, Rem, BlockBytes, Quot;
    SomeBytes(rip, cache);
    var offset := Rem(pos + n, rip.devinfo.blocksize);
    ghost var c := Contents(rip, cache);
    ContentsSlice(rip, cache, pos + n, chunk);
    ghost var d := c[pos + n..pos + n + chunk];
    var bdata := FetchBlock(rip, pos + n, cache);
    ghost var before := b[..];
    assert before[..n] == b[..n] && before[n..] == b[n..] && before[n + chunk..] == b[n + chunk..];
    assert bdata[offset..offset + chunk] == d;
    CopyOut(b, n, bdata, offset, chunk);
    CopiedOn(before, was, c, pos, n, d);
  }

  lemma CopiedOn(before: seq<byte>, was: seq<byte>, c: seq<byte>, pos: nat, n: nat, d: seq<byte>)
    requires |before| == |was| && n + |d| <= |was| && pos + n + |d| <= |c|
    requires before[..n] == c[pos..pos + n] && before[n..] == was[n..]
    requires d == c[pos + n..pos + n + |d|]
    ensures
      var after := before[..n] + d + before[n + |d|..];
      && after[..n + |d|] == c[pos..pos + (n + |d|)]
      && after[n + |d|..] == was[n + |d|..]
  {
    assert before[n + |d|..] == before[n..][|d|..];
    assert was[n + |d|..] == was[n..][|d|..];
  }

  lemma NextBlock(pos: nat, blocksize: nat)
    requires 0 < blocksize
    ensures Rem(pos + (blocksize - Rem(pos, blocksize)), blocksize) == 0
  {
    DivMod(pos, blocksize);
    var q := pos / blocksize;
    assert (q + 1) * blocksize == q * blocksize + blocksize;
    DivModUnique(pos + (blocksize - Rem(pos, blocksize)), blocksize, q + 1, 0);
  }

  lemma SomeBytes(rip: CacheInode, cache: BlockCache)
    requires ValidFile(rip, cache)
    ensures 0 < rip.devinfo.blocksize
  {
  }

  /** Before the first chunk. */
  lemma ReadStart(b: array<byte>, c: seq<byte>, pos: nat)
    requires pos <= |c|
    ensures HasRead(b, b[..], c, pos, 0)
  {
  }

  lemma AllRead(b: array<byte>, was: seq<byte>, c: seq<byte>, pos: nat, n: nat, err: Error)
    requires HasRead(b, was, c, pos, n) && n == (if b.Length <= |c| - pos then b.Length else |c| - pos)
    requires err == if pos == |c| then EOF else OK
    ensures ReadAnswers(c, pos, b.Length, b[..n], err)
    ensures n <= b.Length && pos + n <= |c| && b[..n] == c[pos..pos + n] && b[n..] == was[n..]
  {
  }

  /** Reads as many bytes from `pos` on as there are, and as `b` has room for. */
  method Read(rip: CacheInode, b: array<byte>, pos: nat, cache: BlockCache) returns (n: nat, err: Error)
    requires ValidFile(rip, cache) && pos <= rip.size
    modifies b, cache
    ensures cache.blocks == old(cache.blocks)
    ensures ValidFile(rip, cache) && Contents(rip, cache) == old(Contents(rip, cache))
    ensures n == if b.Length <= rip.size - pos then b.Length else rip.size - pos
    ensures HasRead(b, old(b[..]), Contents(rip, cache), pos, n)
    ensures n <= b.Length && pos + n <= rip.size && b[..n] == Contents(rip, cache)[pos..pos + n]
    ensures b[n..] == old(b[n..])
    ensures err == if pos == rip.size then EOF else OK
    ensures ReadAnswers(Contents(rip, cache), pos, b.Length, b[..n], err)
  {
    hide ValidFile, Contents, Rem, HasRead, ReadAnswers;
    SomeBytes(rip, cache);
    ghost var was, c := b[..], Contents(rip, cache);
    ReadStart(b, c, pos);
    var len := b.Length;
    if pos + len > rip.size {
      len := rip.size - pos;
    }
    if pos >= rip.size {
      AllRead(b, was, c, pos, 0, EOF);
      return 0, EOF;
    }
    var blocksize := rip.devinfo.blocksize;
    var offset := Rem(pos, blocksize);
    NextBlock(pos, blocksize);
    if len < blocksize - offset {
      ReadChunk(rip, b, pos, 0, len, cache, was);
      AllRead(b, was, c, pos, len, OK);
      return len, OK;
    }
    n := blocksize - offset;
    ReadChunk(rip, b, pos, 0, n, cache, was);
    while n < len
      invariant n <= len && ValidFile(rip, cache) && cache.blocks == old(cache.blocks)
      invariant Contents(rip, cache) == c && HasRead(b, was, c, pos, n)
      invariant Rem(pos + n, blocksize) == 0
      decreases len - n
    {
      NextBlock(pos + n, blocksize);
      var bytesLeft := len - n;
      if bytesLeft < blocksize {
        ReadChunk(rip, b, pos, n, bytesLeft, cache, was);
        AllRead(b, was, c, pos, len, OK);
        return len, OK;
      }
      ReadChunk(rip, b, pos, n, blocksize, cache, was);
      n := n + blocksize;
    }
    AllRead(b, was, c, pos, n, OK);
    err := OK;
  }

  /** What has just been written is read back. `n` bytes of `data` fitted on the disk. */
  method WriteThenRead(rip: CacheInode, data: seq<byte>, pos: nat, b: array<byte>, cache: BlockCache)
        returns (n: nat, got: nat)
    requires ValidFile(rip, cache) && pos <= rip.size && b.Length == |data|
    requires rip.ftype == REGULAR && pos + |data| <= rip.devinfo.maxsize
    requires Reaches(rip.devinfo, rip.View(cache), cache.blocks, rip.bitmap.Zones(), rip.size, pos + |data|)
    modifies rip`zone, rip`size, rip`dirty, cache, rip.bitmap`maps, rip.bitmap`zSearch, b
    ensures n <= got <= |data| && b[..n] == data[..n]
    ensures old(rip.size) >= pos + |data| ==> got == |data|
    ensures forall i: nat | n <= i < got :: pos + i < old(rip.size) && b[i] == old(Contents(rip, cache))[pos + i]
  {
    ghost var c := Contents(rip, cache);
    hide ValidFile, Contents, Wrote, Reaches, ReadAnswers, WriteAnswers, ZonesFor, Bitmap.FreeZones, NearlyFull,
        Splice, HasRead;
    var err, err';
    n, err := Write(rip, data, pos, cache);
    SpliceMeans(c, pos, data[..n]);
    got, err' := Read(rip, b, pos, cache);
    ReadBack(b, c, pos, data[..n], Contents(rip, cache), got);
  }

  lemma ReadBack(b: array<byte>, c: seq<byte>, pos: nat, d: seq<byte>, c': seq<byte>, got: nat)
    requires pos <= |c| && c' == Splice(c, pos, d) && |d| <= got <= b.Length && pos + got <= |c'|
    requires b[..got] == c'[pos..pos + got]
    ensures b[..|d|] == d
    ensures forall i: nat | |d| <= i < got :: pos + i < |c| && b[i] == c[pos + i]
  {
    forall i: nat | i < got
      ensures b[i] == c'[pos + i]
    {
      assert b[i] == b[..got][i] == c'[pos..pos + got][i];
    }
  }
}
