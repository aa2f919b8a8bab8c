/** Files side by side on one disk, and a file over its whole life. */
module Lifetime {
  import opened Common
  import opened Disk
  import opened Bitmaps
  import opened ZoneTree
  import opened ZoneMap
  import opened FileBlocks
  import opened FileData
  import opened Truncation

  /** A write to one file leaves every file with a disjoint tree as it was, and disjoint. */
  lemma OtherFileUntouched(g: DeviceInfo, zone: seq<nat>, n: nat, v: View, blocks: map<nat, Block>, marks: set<nat>,
        v': View, blocks': map<nat, Block>, marks': set<nat>, m: nat, m': nat, pos: nat, d: seq<byte>)
    requires 0 < NrIndirects(g)
    requires ValidTree(g, zone, blocks) && DenseTo(g, ViewOf(g, zone, blocks), blocks, n)
    requires TreeZones(ViewOf(g, zone, blocks)) <= marks && TreeZones(v) <= marks
    requires TreeZones(ViewOf(g, zone, blocks)) !! TreeZones(v)
    requires Wrote(g, v, blocks, marks, m, v', blocks', marks', m', pos, d)
    ensures ValidTree(g, zone, blocks') && ViewOf(g, zone, blocks') == ViewOf(g, zone, blocks)
    ensures DenseTo(g, ViewOf(g, zone, blocks), blocks', n)
    ensures Bytes(g, ViewOf(g, zone, blocks), blocks', n) == Bytes(g, ViewOf(g, zone, blocks), blocks, n)
    ensures TreeZones(ViewOf(g, zone, blocks)) !! TreeZones(v') && TreeZones(ViewOf(g, zone, blocks)) <= marks'
  {
    var w := ViewOf(g, zone, blocks);
    assert TreeZones(w) !! TreeZones(v');
    BlocksApart(g, w, v');
    IndirectInTree(g, w);
    forall b | b in IndirectBlocks(g, w)
      ensures b in blocks && b in blocks' && blocks'[b] == blocks[b]
    {
      var x :| x in w && x.Interior() && w[x] != NO_ZONE && b == ToBlock(g, w[x]);
      InteriorIndirect(g, zone, blocks, x);
      assert b in TreeBlocks(g, w);
    }
    DataFrame(g, zone, blocks, blocks');
    forall k: nat | HasBlock(g, w, blocks, k)
      ensures HasBlock(g, w, blocks', k) && BlockBytes(g, w, blocks', k) == BlockBytes(g, w, blocks, k)
    {
      BlockApart(g, w, k);
    }
    var c, c' := Bytes(g, w, blocks, n), Bytes(g, w, blocks', n);
    forall p: nat | p < n
      ensures c'[p] == c[p]
    {
      DenseAt(g, w, blocks, n, p);
    }
  }

  /** The blocks of different zones are different. */
  lemma BlocksApart(g: DeviceInfo, v: View, w: View)
    requires TreeZones(v) !! TreeZones(w)
    ensures TreeBlocks(g, v) !! TreeBlocks(g, w)
  {
    forall b | b in TreeBlocks(g, v)
      ensures b !in TreeBlocks(g, w)
    {
      var z: nat, x: nat :| z in TreeZones(v) && x < Pow2(g.scale) && b == ZoneBlock(g, z, x);
      InTreeBlocks(g, w, z, x);
    }
  }

  /** The zone map holds the zones of this file, and those in `others`. */
  ghost predicate Shares(rip: CacheInode, cache: BlockCache, others: set<nat>)
    requires ValidFile(rip, cache)
    reads rip`zone, rip`size, cache, rip.bitmap
  {
    && rip.bitmap.Zones() == others + TreeZones(rip.View(cache))
    && others !! TreeZones(rip.View(cache))
    && Tight(rip.devinfo, rip.View(cache), rip.size)
  }

  lemma AccountedShares(v: View, marks: set<nat>, v': View, marks': set<nat>, others: set<nat>)
    requires Accounted(v, marks, v', marks', NO_ZONE) && TreeZones(v) <= TreeZones(v')
    requires marks == others + TreeZones(v) && others !! TreeZones(v)
    ensures marks' == others + TreeZones(v') && others !! TreeZones(v')
  {
  }

  /** In a tight file no zone is past the end for `Truncate`. */
  lemma TightPastEof(g: DeviceInfo, v: View, size: nat)
    requires 0 < NrIndirects(g) && v.Keys == Nodes(NrIndirects(g)) && Tight(g, v, size)
    ensures PastEof(g, size) <= v.Keys && forall m | m in PastEof(g, size) :: v[m] == NO_ZONE
  {
    forall m | m in PastEof(g, size)
      ensures v[m] == NO_ZONE
    {
      FileZoneInverse(g, 0, m);
      assert DataNode(g, FileZone(g, m)) in v;
    }
  }

  /** A file that holds nothing yet. */
  lemma EmptyFile(g: DeviceInfo, blocks: map<nat, Block>)
    requires 0 < NrIndirects(g) && 0 < g.firstdatazone
    ensures
      var zone := Zeroes(V2_NR_TZONES, NO_ZONE);
      var v := ViewOf(g, zone, blocks);
      && ValidTree(g, zone, blocks) && TreeZones(v) == {}
      && DenseTo(g, v, blocks, 0) && TypedFile(g, v, blocks) && Tight(g, v, 0)
  {
    hide ViewOf;
    EmptyView(g, blocks);
  }

  lemma EmptyView(g: DeviceInfo, blocks: map<nat, Block>)
    ensures
      var v := ViewOf(g, Zeroes(V2_NR_TZONES, NO_ZONE), blocks);
      v.Keys == Nodes(NrIndirects(g)) && forall m | m in v :: v[m] == NO_ZONE
  {
  }

  /** A write within the file that needs no new zone but the one at its end. A write that
      needs another is one that the source does not survive, unless zones are single blocks. */
  predicate Survived(g: DeviceInfo, size: nat, pos: nat, end: nat)
    requires 0 < ZoneSize(g)
  {
    pos <= size && (g.scale == 0 || end <= (Quot(size, ZoneSize(g)) + 1) * ZoneSize(g))
  }

  lemma SurvivedReaches(g: DeviceInfo, v: View, blocks: map<nat, Block>, marks: set<nat>, size: nat, pos: nat, end: nat)
    requires 0 < ZoneSize(g) && Survived(g, size, pos, end) && (g.scale == 0 || FreeTyped(g, marks, blocks))
    ensures Reaches(g, v, blocks, marks, size, end)
  {
    var zs := ZoneSize(g);
    DivMod(size, zs);
    forall j: nat | size + 1 <= j * zs
      ensures (Quot(size, zs) + 1) * zs <= j * zs
    {
      MulGrows(Quot(size, zs) + 1 - j, zs);
    }
  }

  /** In a file with no zones past its end, the blocks that a write needs can be had exactly if
      it needs no new zone but the one at the end. */
  lemma ReachesIffSurvived(g: DeviceInfo, v: View, blocks: map<nat, Block>, marks: set<nat>, size: nat, pos: nat,
        end: nat)
    requires 0 < ZoneSize(g) && 0 < NrIndirects(g) && v.Keys == Nodes(NrIndirects(g)) && Tight(g, v, size)
    requires FreeTyped(g, marks, blocks) && pos <= size && end <= MaxBytes(g)
    ensures Reaches(g, v, blocks, marks, size, end) <==> Survived(g, size, pos, end)
  {
    if Survived(g, size, pos, end) {
      SurvivedReaches(g, v, blocks, marks, size, pos, end);
    } else {
      var zs := ZoneSize(g);
      var j := Quot(size, zs) + 1;
      DivMod(size, zs);
      assert size + 1 <= j * zs < end;
      DivModUnique(j * zs, zs, j, 0);
      DivLess(j * zs, zs, MaxZones(g));
      DataNodeValid(g, j);
      assert v[DataNode(g, j)] == NO_ZONE;
    }
  }

  /** Any run of writes, some of which may fail for lack of space, and a final `Truncate`
      leave the zone map as if the file had never been. */
  method WriteAndRemove(rip: CacheInode, cache: BlockCache, writes: seq<(nat, seq<byte>)>, ghost others: set<nat>)
    requires ValidFile(rip, cache) && rip.ftype == REGULAR && Shares(rip, cache, others)
    requires rip.devinfo.scale == 0 || FreeTyped(rip.devinfo, rip.bitmap.Zones(), cache.blocks)
    modifies rip`zone, rip`size, rip`dirty, cache, rip.bitmap`maps, rip.bitmap`zSearch
    ensures rip.bitmap.Ready() && rip.bitmap.Zones() == others
  {
    hide ValidFile, Shares, Bitmap.Ready, Bitmap.Zones, FreeTyped, Survived;
    FileZones(rip, cache);
    for i := 0 to |writes|
      invariant ValidFile(rip, cache) && Shares(rip, cache, others) && rip.bitmap.Ready()
      invariant rip.devinfo.scale == 0 || FreeTyped(rip.devinfo, rip.bitmap.Zones(), cache.blocks)
    {
      var (pos, data) := writes[i];
      if Survived(rip.devinfo, rip.size, pos, pos + |data|) {
        OneWrite(rip, cache, pos, data, others);
      }
    }
    Remove(rip, cache, others);
  }

  lemma FileZones(rip: CacheInode, cache: BlockCache)
    requires ValidFile(rip, cache)
    ensures 0 < ZoneSize(rip.devinfo) && rip.bitmap.Ready()
  {
  }

  /** Removing a file gives back its zones, and leaves those of others. */
  method Remove(rip: CacheInode, cache: BlockCache, ghost others: set<nat>)
    requires ValidFile(rip, cache) && rip.ftype == REGULAR && Shares(rip, cache, others)
    modifies rip`dirty, cache, rip.bitmap`maps, rip.bitmap`zSearch
    ensures rip.bitmap.Ready() && rip.bitmap.Zones() == others
  {
    hide Tight, PastEof, ZonesAt, TreeZones, Bitmap.Ready, Bitmap.Zones;
    NothingPastEnd(rip, cache, others);
    Truncate(rip, cache);
  }

  lemma NothingPastEnd(rip: CacheInode, cache: BlockCache, others: set<nat>)
    requires ValidFile(rip, cache) && Shares(rip, cache, others)
    ensures rip.Owned(cache) && rip.size <= MaxZones(rip.devinfo) * ZoneSize(rip.devinfo)
    ensures rip.bitmap.Zones() - ZonesAt(rip.View(cache), rip.View(cache).Keys - PastEof(rip.devinfo, rip.size)) ==
              others
  {
    ghost var v, marks := rip.View(cache), rip.bitmap.Zones();
    TightPastEof(rip.devinfo, v, rip.size);
    ExactFreeIff(v, marks, PastEof(rip.devinfo, rip.size));
  }

  method OneWrite(rip: CacheInode, cache: BlockCache, pos: nat, data: seq<byte>, ghost others: set<nat>)
    requires ValidFile(rip, cache) && rip.ftype == REGULAR && Shares(rip, cache, others)
    requires rip.bitmap.Ready() && 0 < ZoneSize(rip.devinfo) && Survived(rip.devinfo, rip.size, pos, pos + |data|)
    requires rip.devinfo.scale == 0 || FreeTyped(rip.devinfo, rip.bitmap.Zones(), cache.blocks)
    modifies rip`zone, rip`size, rip`dirty, cache, rip.bitmap`maps, rip.bitmap`zSearch
    ensures ValidFile(rip, cache) && Shares(rip, cache, others) && rip.bitmap.Ready()
    ensures rip.devinfo.scale == 0 || FreeTyped(rip.devinfo, rip.bitmap.Zones(), cache.blocks)
  {
    ghost var v, blocks, marks, size := rip.View(cache), cache.blocks, rip.bitmap.Zones(), rip.size;
    SurvivedReaches(rip.devinfo, v, blocks, marks, size, pos, pos + |data|);
    var n, err := Write(rip, data, pos, cache);
    if err != EFBIG {
      AccountedShares(v, marks, rip.View(cache), rip.bitmap.Zones(), others);
      if rip.devinfo.scale != 0 {
        FreeTypedStays(rip.devinfo, v, blocks, marks, size, rip.View(cache), cache.blocks, rip.bitmap.Zones(), rip.size,
            pos, data[..n]);
      }
    }
  }
}
