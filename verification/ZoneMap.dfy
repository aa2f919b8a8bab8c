/** The code that walks and grows an inode's zone tree: `ReadMap`, `WriteMap`, `NewBlock`. */
module ZoneMap {
  import opened Common
  import opened Disk
  import opened Bitmaps
  import opened ZoneTree
  import opened ZoneNeeds

  datatype FileType = REGULAR | DIRECTORY | CHAR_SPECIAL | BLOCK_SPECIAL | OTHER

  /** An inode in the inode cache. */
  class CacheInode {
    const devinfo: DeviceInfo
    const bitmap: Bitmap
    var zone: seq<nat>
    var size: nat
    var ftype: FileType
    var dirty: bool

    constructor (bitmap: Bitmap, ftype: FileType)
      ensures this.bitmap == bitmap && devinfo == bitmap.devinfo
      ensures zone == Zeroes(V2_NR_TZONES, NO_ZONE) && size == 0 && this.ftype == ftype
    {
      this.devinfo := bitmap.devinfo;
      this.bitmap := bitmap;
      this.zone := Zeroes(V2_NR_TZONES, NO_ZONE);
      this.size := 0;
      this.ftype := ftype;
      this.dirty := true;
    }

    ghost function View(cache: BlockCache): View
      requires |zone| == V2_NR_TZONES
      reads this`zone, cache
    {
      ViewOf(devinfo, zone, cache.blocks)
    }

    /** The tree is well formed and its zones are allocated. */
    ghost predicate Owned(cache: BlockCache)
      reads this`zone, cache, bitmap
    {
      && bitmap.Ready()
      && devinfo == bitmap.devinfo
      && devinfo.zones <= 0x1_0000_0000
      && 0 < NrIndirects(devinfo)
      && |zone| == V2_NR_TZONES
      && ValidTree(devinfo, zone, cache.blocks)
      && TreeZones(View(cache)) <= bitmap.Zones()
    }
  }

  /** Storing a zone number in a 32-bit field. */
  function U32(z: nat): nat {
    z % 0x1_0000_0000
  }

  lemma U32Small(z: nat)
    requires z < 0x1_0000_0000
    ensures U32(z) == z
  {
  }

  /** A number that does not fit loses its upper part. */
  lemma U32Wraps(z: nat, k: nat)
    requires z < 0x1_0000_0000
    ensures U32(k * 0x1_0000_0000 + z) == z
  {
  }

  // ----- reading

  /** One entry of an indirect block. An entry outside the data zones panics. */
  method RdIndir(cache: BlockCache, b: nat, index: nat, min: nat, max: nat) returns (zone: nat)
    requires b in cache.blocks && cache.blocks[b].Indirect? && index < |cache.blocks[b].zones|
    requires var z := cache.blocks[b].zones[index]; z == NO_ZONE || min <= z < max
    ensures zone == cache.blocks[b].zones[index]
  {
    return cache.blocks[b].zones[index];
  }

  /** The block of a position, or `NO_BLOCK` where the file has no zone. */
  method ReadMap(rip: CacheInode, position: nat, cache: BlockCache) returns (b: nat)
    requires 0 < NrIndirects(rip.devinfo) && ValidTree(rip.devinfo, rip.zone, cache.blocks)
    requires RelZone(rip.devinfo, position) < MaxZones(rip.devinfo) || rip.zone[V2_NR_DZONES + 1] == NO_ZONE
    modifies cache
    ensures cache.blocks == old(cache.blocks)
    ensures b == BlockAt(rip.devinfo, rip.zone, cache.blocks, position)
    ensures
      var g, s, k := rip.devinfo, Pow2(rip.devinfo.scale), RelZone(rip.devinfo, position);
      var z := ZoneAt(g, rip.zone, cache.blocks, DataNode(g, k));
      if z == NO_ZONE then b == NO_BLOCK
      else
        && b != NO_BLOCK && b / s == z
        && (k * s + b % s) * g.blocksize <= position < (k * s + b % s) * g.blocksize + g.blocksize
  {
    hide Distinct, TreeZones;
    var g := rip.devinfo;
    BlockAtMeans(g, rip.zone, cache.blocks, position);
    var blockPos: nat := Quot(position, g.blocksize);
    var zone: nat := Quot(blockPos, Pow2(g.scale));
    var boff := blockPos - zone * Pow2(g.scale);
    DivMod(blockPos, Pow2(g.scale));
    ghost var v := ViewOf(g, rip.zone, cache.blocks);
    ghost var m := DataNode(g, zone);
    DataNodeValid(g, zone);
    var n := NrIndirects(g);

    if zone < V2_NR_DZONES {
      var z := rip.zone[zone];
      if z == NO_ZONE {
        return NO_BLOCK;
      }
      return ToBlock(g, z) + boff;
    }

    var z;
    var excess: nat := zone - V2_NR_DZONES;
    if excess < n {
      z := rip.zone[V2_NR_DZONES];
      assert z == v[Single];
    } else {
      z := rip.zone[V2_NR_DZONES + 1];
      if z == NO_ZONE {
        return NO_BLOCK;
      }
      assert z == v[Double];
      excess := excess - n;
      var b := ToBlock(g, z);
      cache.GetBlock(b, INDIRECT_BLOCK, NORMAL, g.blocksize);
      var index: nat := Quot(excess, n);
      assert Child(index) in v;
      z := RdIndir(cache, b, index, g.firstdatazone, g.zones);
      assert z == v[Child(index)];
      excess := Rem(excess, n);
    }
    if z == NO_ZONE {
      return NO_BLOCK;
    }
    assert Single.Interior() && Child(0).Interior();
    b := ToBlock(g, z);
    cache.GetBlock(b, INDIRECT_BLOCK, NORMAL, g.blocksize);
    assert m in v && v[m] == cache.blocks[b].zones[excess];
    z := RdIndir(cache, b, excess, g.firstdatazone, g.zones);
    if z == NO_ZONE {
      return NO_BLOCK;
    }
    return ToBlock(g, z) + boff;
  }

  // ----- writing

  /** Writes one entry of an indirect block in place. */
  method WrIndir(cache: BlockCache, b: nat, index: nat, zone: nat)
    requires b in cache.blocks && cache.blocks[b].Indirect? && index < |cache.blocks[b].zones|
    modifies cache
    ensures cache.blocks == old(cache.blocks)[b := Indirect(old(cache.blocks)[b].zones[index := U32(zone)])]
  {
    cache.blocks := cache.blocks[b := Indirect(cache.blocks[b].zones[index := U32(zone)])];
  }

  lemma OwnedZone(rip: CacheInode, cache: BlockCache)
    requires rip.Owned(cache)
    ensures |rip.zone| == V2_NR_TZONES
  {
  }

  /** Creates the double indirect block. The range of `indEx` is checked only once the new
      zone hangs in the inode, and its block is zeroed only after that. */
  method CreateDouble(rip: CacheInode, indEx: nat, cache: BlockCache) returns (err: Error)
    requires rip.Owned(cache) && rip.zone[V2_NR_DZONES + 1] == NO_ZONE
    modifies rip`zone, cache, rip.bitmap`maps, rip.bitmap`zSearch
    ensures rip.bitmap.Ready()
    ensures err != EFBIG ==> rip.Owned(cache)
    ensures err == ENOSPC ==>
              && rip.zone == old(rip.zone) && cache.blocks == old(cache.blocks)
              && rip.bitmap.Zones() == old(rip.bitmap.Zones()) == rip.bitmap.AllZones()
    ensures err != ENOSPC ==>
              && err == (if indEx < NrIndirects(rip.devinfo) then OK else EFBIG)
              && |rip.zone| == V2_NR_TZONES
              && var z := rip.zone[V2_NR_DZONES + 1];
              && rip.zone == old(rip.zone)[V2_NR_DZONES + 1 := z]
              && IsDataZone(rip.devinfo, z) && z !in old(rip.bitmap.Zones())
              && rip.bitmap.Zones() == old(rip.bitmap.Zones()) + {z}
    ensures err == OK ==>
              FreshStep(rip.devinfo, old(rip.zone), old(cache.blocks), rip.zone, cache.blocks,
                        old(rip.bitmap.Zones()), Double, rip.zone[V2_NR_DZONES + 1])
    ensures err == EFBIG ==> cache.blocks == old(cache.blocks)
  {
    hide Bitmap.Ready, Bitmap.Zones, TreeZones, Pow2, ToBlock, ValidTree, ViewOf, FreshStep, U32;
    var g := rip.devinfo;
    OwnedZone(rip, cache);
    ghost var zone0, blocks0, marks0 := rip.zone, cache.blocks, rip.bitmap.Zones();
    var z;
    z, err := rip.bitmap.AllocZone(rip.zone[0]);
    U32Small(z);
    if z == NO_ZONE || err != OK {
      return;
    }
    rip.zone := rip.zone[V2_NR_DZONES + 1 := U32(z)];
    if indEx >= NrIndirects(g) {
      return EFBIG;
    }
    cache.GetBlock(ToBlock(g, z), INDIRECT_BLOCK, NO_READ, g.blocksize);
    cache.ZeroBlock(ToBlock(g, z), INDIRECT_BLOCK, g.blocksize);
    assert cache.blocks == blocks0[ToBlock(g, z) := ZeroOf(INDIRECT_BLOCK, g.blocksize)];
    RootStep(g, zone0, blocks0, marks0, Double, z);
    FreshStepOwned(g, zone0, blocks0, rip.zone, cache.blocks, marks0, Double, z);
    return OK;
  }

  /** Creates the single indirect block. */
  method CreateSingle(rip: CacheInode, cache: BlockCache) returns (z1: nat, err: Error)
    requires rip.Owned(cache) && rip.zone[V2_NR_DZONES] == NO_ZONE
    modifies rip`zone, cache, rip.bitmap`maps, rip.bitmap`zSearch
    ensures rip.Owned(cache)
    ensures err == OK || err == ENOSPC
    ensures err == ENOSPC ==>
              && rip.zone == old(rip.zone) && cache.blocks == old(cache.blocks)
              && rip.bitmap.Zones() == old(rip.bitmap.Zones()) == rip.bitmap.AllZones()
    ensures err == OK ==>
              && rip.bitmap.Zones() == old(rip.bitmap.Zones()) + {z1}
              && FreshStep(rip.devinfo, old(rip.zone), old(cache.blocks), rip.zone, cache.blocks,
                  old(rip.bitmap.Zones()), Single, z1)
  {
    hide Bitmap.Ready, Bitmap.Zones, TreeZones, Pow2, ToBlock, ValidTree, ViewOf, FreshStep, U32;
    var g := rip.devinfo;
    OwnedZone(rip, cache);
    ghost var zone0, blocks0, marks0 := rip.zone, cache.blocks, rip.bitmap.Zones();
    z1, err := rip.bitmap.AllocZone(rip.zone[0]);
    U32Small(z1);
    rip.zone := rip.zone[V2_NR_DZONES := U32(z1)];
    if z1 == NO_ZONE {
      assert rip.zone == zone0;
      return z1, err;
    }
    cache.GetBlock(ToBlock(g, z1), INDIRECT_BLOCK, NORMAL, g.blocksize);
    cache.ZeroBlock(ToBlock(g, z1), INDIRECT_BLOCK, g.blocksize);
    assert cache.blocks == blocks0[ToBlock(g, z1) := ZeroOf(INDIRECT_BLOCK, g.blocksize)];
    RootStep(g, zone0, blocks0, marks0, Single, z1);
    FreshStepOwned(g, zone0, blocks0, rip.zone, cache.blocks, marks0, Single, z1);
    return z1, OK;
  }

  /** An empty entry of the double indirect block. */
  lemma EmptyChild(g: DeviceInfo, zone: seq<nat>, blocks: map<nat, Block>, i: nat)
    requires ValidTree(g, zone, blocks) && zone[V2_NR_DZONES + 1] != NO_ZONE
    requires i < NrIndirects(g) && ViewOf(g, zone, blocks)[Child(i)] == NO_ZONE
    ensures ZoneAt(g, zone, blocks, Double) == zone[V2_NR_DZONES + 1] && ZoneAt(g, zone, blocks, Child(i)) == NO_ZONE
    ensures IsIndirect(g, blocks, zone[V2_NR_DZONES + 1])
    ensures blocks[ToBlock(g, zone[V2_NR_DZONES + 1])].zones[i] == NO_ZONE
  {
    InteriorIndirect(g, zone, blocks, Double);
    assert ViewOf(g, zone, blocks)[Child(i)] == ZoneAt(g, zone, blocks, Child(i));
  }

  /** Creates child `i` of the double indirect block. */
  method CreateChild(rip: CacheInode, i: nat, rdflag: ReadFlag, cache: BlockCache) returns (z1: nat, err: Error)
    requires rip.Owned(cache) && rip.zone[V2_NR_DZONES + 1] != NO_ZONE
    requires i < NrIndirects(rip.devinfo) && rip.View(cache)[Child(i)] == NO_ZONE
    modifies cache, rip.bitmap`maps, rip.bitmap`zSearch
    ensures rip.Owned(cache)
    ensures err == OK || err == ENOSPC
    ensures err == ENOSPC ==>
              && cache.blocks == old(cache.blocks)
              && rip.bitmap.Zones() == old(rip.bitmap.Zones()) == rip.bitmap.AllZones()
    ensures err == OK ==>
              && rip.bitmap.Zones() == old(rip.bitmap.Zones()) + {z1}
              && FreshStep(rip.devinfo, rip.zone, old(cache.blocks), rip.zone, cache.blocks,
                           old(rip.bitmap.Zones()), Child(i), z1)
  {
    hide Bitmap.Ready, Bitmap.Zones, TreeZones, Pow2, ToBlock, ValidTree, ViewOf, FreshStep, U32, ZoneAt;
    var g := rip.devinfo;
    ghost var blocks0, marks0 := cache.blocks, rip.bitmap.Zones();
    OwnedZone(rip, cache);
    var d := rip.zone[V2_NR_DZONES + 1];
    EmptyChild(g, rip.zone, blocks0, i);
    ghost var dzones := blocks0[ToBlock(g, d)].zones;
    assert dzones[i := NO_ZONE] == dzones;
    z1, err := rip.bitmap.AllocZone(rip.zone[0]);
    U32Small(z1);
    WrIndir(cache, ToBlock(g, d), i, z1);
    if z1 == NO_ZONE {
      assert cache.blocks == blocks0;
      return z1, err;
    }
    cache.GetBlock(ToBlock(g, z1), INDIRECT_BLOCK, rdflag, g.blocksize);
    cache.ZeroBlock(ToBlock(g, z1), INDIRECT_BLOCK, g.blocksize);
    assert cache.blocks ==
           WithEntry(g, blocks0, d, i, z1)[ToBlock(g, z1) := ZeroOf(INDIRECT_BLOCK, g.blocksize)];
    ChildStep(g, rip.zone, blocks0, marks0, i, z1);
    FreshStepOwned(g, rip.zone, blocks0, rip.zone, cache.blocks, marks0, Child(i), z1);
    return z1, OK;
  }

  /** Writes entry `ex` of the indirect block in zone `z1`, which is place `m`. */
  method WriteEntry(rip: CacheInode, ghost m: Node, z1: nat, ex: nat, newZone: nat, cache: BlockCache)
    requires rip.Owned(cache)
    requires m in Nodes(NrIndirects(rip.devinfo)) && (m.SingleEntry? || m.ChildEntry?)
    requires z1 == ZoneAt(rip.devinfo, rip.zone, cache.blocks, Parent(m)) != NO_ZONE && ex == Index(m)
    requires IsDataZone(rip.devinfo, newZone) && newZone in rip.bitmap.Zones()
    requires newZone !in TreeZones(rip.View(cache))
    modifies cache
    ensures rip.Owned(cache)
    ensures rip.View(cache) == old(rip.View(cache))[m := newZone]
    ensures Untouched(old(cache.blocks), cache.blocks, IndirectBlocks(rip.devinfo, old(rip.View(cache))))
  {
    var g := rip.devinfo;
    ghost var blocks0 := cache.blocks;
    EntryWritten(g, rip.zone, cache.blocks, m, newZone);
    ReplacedZones(rip.View(cache), m, newZone);
    U32Small(newZone);
    hide Bitmap.Ready, Bitmap.Zones, TreeZones, Pow2, ToBlock, ValidTree, ViewOf, U32, ZoneAt, Untouched,
        IndirectBlocks;
    cache.GetBlock(ToBlock(g, z1), INDIRECT_BLOCK, NORMAL, g.blocksize);
    WrIndir(cache, ToBlock(g, z1), ex, newZone);
    assert cache.blocks == WithEntry(g, blocks0, z1, ex, newZone);
  }

  /** `WriteMap` for a position found through the single indirect block. */
  method MapSingle(rip: CacheInode, j: nat, newZone: nat, cache: BlockCache) returns (err: Error)
    requires rip.Owned(cache) && j < NrIndirects(rip.devinfo)
    requires IsDataZone(rip.devinfo, newZone) && newZone in rip.bitmap.Zones()
    requires newZone !in TreeZones(rip.View(cache))
    modifies rip`zone, cache, rip.bitmap`maps, rip.bitmap`zSearch
    ensures rip.Owned(cache)
    ensures err == OK || (err == ENOSPC && rip.bitmap.Zones() == rip.bitmap.AllZones())
    ensures Mapped(rip.devinfo, old(rip.View(cache)), old(cache.blocks), old(rip.bitmap.Zones()),
                   rip.View(cache), cache.blocks, rip.bitmap.Zones(), SingleEntry(j), newZone, err)
    ensures err != OK ==> Stuck(rip.View(cache), SingleEntry(j))
  {
    var g := rip.devinfo;
    ghost var zone0, blocks0, marks0 := rip.zone, cache.blocks, rip.bitmap.Zones();
    var z1 := rip.zone[V2_NR_DZONES];
    if z1 == NO_ZONE {
      z1, err := CreateSingle(rip, cache);
    } else {
      err := OK;
    }
    ghost var marks1 := rip.bitmap.Zones();
    StepsMapped(g, zone0, blocks0, marks0, rip.zone, cache.blocks, marks1, rip.zone, cache.blocks, marks1,
                Single, Single, SingleEntry(j), newZone);
    if err != OK {
      RootEmpty(g, rip.zone, cache.blocks, Single, SingleEntry(j));
      return;
    }
    WriteEntry(rip, SingleEntry(j), z1, j, newZone, cache);
  }

  /** An empty indirect block number in the inode keeps what is under it from being entered. */
  lemma RootEmpty(g: DeviceInfo, zone: seq<nat>, blocks: map<nat, Block>, p: Node, m: Node)
    requires |zone| == V2_NR_TZONES && Above(p, m) && (p == Single || p == Double)
    requires zone[if p == Single then V2_NR_DZONES else V2_NR_DZONES + 1] == NO_ZONE
    ensures Stuck(ViewOf(g, zone, blocks), m)
  {
    assert p in ViewOf(g, zone, blocks);
  }

  /** Child `i` opened, which gives `blocks1`, and then its entry `j` written, or neither more
      than opened. */
  ghost predicate EntryAfter(g: DeviceInfo, zone: seq<nat>, blocks: map<nat, Block>, marks: set<nat>,
        blocks1: map<nat, Block>, blocks': map<nat, Block>, marks': set<nat>, i: nat, j: nat, z: nat, err: Error)
    requires |zone| == V2_NR_TZONES
  {
    && Step(g, zone, blocks, marks, zone, blocks1, marks', Child(i))
    && (if err != OK then blocks1 == blocks' else
          && ViewOf(g, zone, blocks') == ViewOf(g, zone, blocks1)[ChildEntry(i, j) := z]
          && Untouched(blocks1, blocks', IndirectBlocks(g, ViewOf(g, zone, blocks1))))
  }

  lemma StepNone(g: DeviceInfo, zone: seq<nat>, blocks: map<nat, Block>, marks: set<nat>, p: Node)
    ensures Step(g, zone, blocks, marks, zone, blocks, marks, p)
  {
  }

  lemma StepFresh(g: DeviceInfo, zone: seq<nat>, blocks: map<nat, Block>, marks: set<nat>, zone': seq<nat>,
        blocks': map<nat, Block>, p: Node, z: nat)
    requires FreshStep(g, zone, blocks, zone', blocks', marks, p, z)
    ensures Step(g, zone, blocks, marks, zone', blocks', marks + {z}, p)
  {
  }

  /** A fresh place holds its zone, and no zone that was marked has entered the tree. */
  lemma FreshPlace(g: DeviceInfo, zone: seq<nat>, blocks: map<nat, Block>, marks: set<nat>, zone': seq<nat>,
        blocks': map<nat, Block>, p: Node, z: nat, other: nat)
    requires FreshStep(g, zone, blocks, zone', blocks', marks, p, z)
    requires other in marks && other !in TreeZones(ViewOf(g, zone, blocks))
    ensures |zone'| == V2_NR_TZONES && p in ViewOf(g, zone', blocks') && ViewOf(g, zone', blocks')[p] == z != NO_ZONE
    ensures other !in TreeZones(ViewOf(g, zone', blocks'))
  {
  }

  /** The entry for child `i` of the double indirect block. */
  lemma ChildEntryRead(g: DeviceInfo, zone: seq<nat>, blocks: map<nat, Block>, i: nat)
    requires ValidTree(g, zone, blocks) && zone[V2_NR_DZONES + 1] != NO_ZONE && i < NrIndirects(g)
    ensures IsIndirect(g, blocks, zone[V2_NR_DZONES + 1])
    ensures
      var z := blocks[ToBlock(g, zone[V2_NR_DZONES + 1])].zones[i];
      && z == ZoneAt(g, zone, blocks, Child(i)) && (z == NO_ZONE || g.firstdatazone <= z < g.zones)
      && Child(i) in ViewOf(g, zone, blocks) && ViewOf(g, zone, blocks)[Child(i)] == z
  {
    InteriorIndirect(g, zone, blocks, Double);
    assert Child(i) in ViewOf(g, zone, blocks);
  }

  /** `WriteMap` for a position found through the double indirect block, which exists. */
  method MapDouble(rip: CacheInode, i: nat, j: nat, rdflag: ReadFlag, newZone: nat, cache: BlockCache)
        returns (err: Error, ghost blocks1: map<nat, Block>)
    requires rip.Owned(cache) && rip.zone[V2_NR_DZONES + 1] != NO_ZONE
    requires i < NrIndirects(rip.devinfo) && j < NrIndirects(rip.devinfo)
    requires IsDataZone(rip.devinfo, newZone) && newZone in rip.bitmap.Zones()
    requires newZone !in TreeZones(rip.View(cache))
    modifies cache, rip.bitmap`maps, rip.bitmap`zSearch
    ensures rip.Owned(cache)
    ensures err == OK || (err == ENOSPC && rip.bitmap.Zones() == rip.bitmap.AllZones())
    ensures EntryAfter(rip.devinfo, rip.zone, old(cache.blocks), old(rip.bitmap.Zones()),
                       blocks1, cache.blocks, rip.bitmap.Zones(), i, j, newZone, err)
    ensures err != OK ==> Stuck(rip.View(cache), ChildEntry(i, j))
  {
    hide Step, ViewOf, ValidTree, TreeZones, Bitmap.Ready, Bitmap.Zones, FreshStep, ToBlock, Untouched,
        IndirectBlocks, ZoneAt;
    var g := rip.devinfo;
    OwnedZone(rip, cache);
    ChildEntryRead(g, rip.zone, cache.blocks, i);
    ghost var blocks0, marks0 := cache.blocks, rip.bitmap.Zones();
    var z1 := RdIndir(cache, ToBlock(g, rip.zone[V2_NR_DZONES + 1]), i, g.firstdatazone, g.zones);
    StepNone(g, rip.zone, blocks0, marks0, Child(i));
    err := OK;
    if z1 == NO_ZONE {
      z1, err := CreateChild(rip, i, rdflag, cache);
      if err == OK {
        StepFresh(g, rip.zone, blocks0, marks0, rip.zone, cache.blocks, Child(i), z1);
        FreshPlace(g, rip.zone, blocks0, marks0, rip.zone, cache.blocks, Child(i), z1, newZone);
      } else {
        assert Above(Child(i), ChildEntry(i, j));
      }
    }
    blocks1 := cache.blocks;
    if err != OK {
      return;
    }
    ChildEntryRead(g, rip.zone, cache.blocks, i);
    WriteEntry(rip, ChildEntry(i, j), z1, j, newZone, cache);
  }

  /** What a write past the last zone a tree can hold does: it fails, but not before it has
      hung a double indirect zone in the inode, if there was none. */
  ghost predicate PastTheEnd(g: DeviceInfo, zone: seq<nat>, marks: set<nat>, zone': seq<nat>, marks': set<nat>,
        err: Error)
    requires |zone| == |zone'| == V2_NR_TZONES
  {
    var z := zone'[V2_NR_DZONES + 1];
    && (err == EFBIG || err == ENOSPC)
    && zone' == zone[V2_NR_DZONES + 1 := z]
    && (if zone[V2_NR_DZONES + 1] == NO_ZONE && err == EFBIG
        then IsDataZone(g, z) && z !in marks && marks' == marks + {z}
        else zone' == zone && marks' == marks)
  }

  lemma OwnedTree(rip: CacheInode, cache: BlockCache)
    requires rip.Owned(cache)
    ensures ValidTree(rip.devinfo, rip.zone, cache.blocks) && |rip.zone| == V2_NR_TZONES
    ensures 0 < rip.devinfo.firstdatazone
    ensures TreeZones(ViewOf(rip.devinfo, rip.zone, cache.blocks)) <= rip.bitmap.Zones()
  {
  }

  /** Failing before anything was created. */
  lemma NothingMapped(rip: CacheInode, cache: BlockCache, m: Node, z: nat)
    requires rip.Owned(cache) && m in Nodes(NrIndirects(rip.devinfo)) && m.ChildEntry?
    requires z in rip.bitmap.Zones() && z != NO_ZONE && z !in TreeZones(rip.View(cache))
    ensures Mapped(rip.devinfo, rip.View(cache), cache.blocks, rip.bitmap.Zones(), rip.View(cache), cache.blocks,
              rip.bitmap.Zones(), m, z, ENOSPC)
  {
    var g, zone, blocks, marks := rip.devinfo, rip.zone, cache.blocks, rip.bitmap.Zones();
    OwnedTree(rip, cache);
    hide ValidTree, ViewOf, TreeZones, Bitmap.Ready, Bitmap.Zones, Mapped;
    StepNone(g, zone, blocks, marks, Double);
    StepsMapped(g, zone, blocks, marks, zone, blocks, marks, zone, blocks, marks, Double, Double, m, z);
  }

  /** The double indirect block opened, then a child of it, then the entry written. */
  lemma MappedThrough(g: DeviceInfo, zone: seq<nat>, blocks: map<nat, Block>, marks: set<nat>, zone1: seq<nat>,
        blocks1: map<nat, Block>, marks1: set<nat>, blocks2: map<nat, Block>, blocks3: map<nat, Block>,
        marks3: set<nat>, i: nat, j: nat, z: nat, err: Error)
    requires ValidTree(g, zone, blocks) && TreeZones(ViewOf(g, zone, blocks)) <= marks
    requires ValidTree(g, zone1, blocks1) && TreeZones(ViewOf(g, zone1, blocks1)) <= marks1
    requires i < NrIndirects(g) && j < NrIndirects(g) && (err == OK || err == ENOSPC)
    requires z in marks && z != NO_ZONE && z !in TreeZones(ViewOf(g, zone, blocks))
    requires Step(g, zone, blocks, marks, zone1, blocks1, marks1, Double)
    requires EntryAfter(g, zone1, blocks1, marks1, blocks2, blocks3, marks3, i, j, z, err)
    ensures Mapped(g, ViewOf(g, zone, blocks), blocks, marks, ViewOf(g, zone1, blocks3), blocks3, marks3,
              ChildEntry(i, j), z, err)
  {
    hide ValidTree, ViewOf, TreeZones, Step, Mapped;
    StepsMapped(g, zone, blocks, marks, zone1, blocks1, marks1, zone1, blocks2, marks3, Double, Child(i),
        ChildEntry(i, j), z);
  }

  /** `WriteMap` for a position past those of the single indirect block. */
  method MapPastSingle(rip: CacheInode, indEx: nat, ex: nat, newZone: nat, cache: BlockCache) returns (err: Error)
    requires rip.Owned(cache) && ex < NrIndirects(rip.devinfo)
    requires IsDataZone(rip.devinfo, newZone) && newZone in rip.bitmap.Zones()
    requires newZone !in TreeZones(rip.View(cache))
    modifies rip`zone, cache, rip.bitmap`maps, rip.bitmap`zSearch
    ensures rip.bitmap.Ready() && |rip.zone| == V2_NR_TZONES
    ensures indEx < NrIndirects(rip.devinfo) ==>
              && rip.Owned(cache)
              && (err == OK || (err == ENOSPC && rip.bitmap.Zones() == rip.bitmap.AllZones()))
              && Mapped(rip.devinfo, old(rip.View(cache)), old(cache.blocks), old(rip.bitmap.Zones()),
                        rip.View(cache), cache.blocks, rip.bitmap.Zones(), ChildEntry(indEx, ex), newZone, err)
              && (err != OK ==> Stuck(rip.View(cache), ChildEntry(indEx, ex)))
    ensures indEx >= NrIndirects(rip.devinfo) ==>
              && cache.blocks == old(cache.blocks)
              && PastTheEnd(rip.devinfo, old(rip.zone), old(rip.bitmap.Zones()), rip.zone, rip.bitmap.Zones(), err)
  {
    hide Step, Mapped, EntryAfter, ViewOf, ValidTree, TreeZones, Bitmap.Ready, Bitmap.Zones, FreshStep,
        IndirectBlocks, Untouched, ZoneAt;
    var g := rip.devinfo;
    OwnedTree(rip, cache);
    ghost var zone0, blocks0, marks0 := rip.zone, cache.blocks, rip.bitmap.Zones();
    StepNone(g, zone0, blocks0, marks0, Double);
    var rdflag := NORMAL;
    if rip.zone[V2_NR_DZONES + 1] == NO_ZONE {
      err := CreateDouble(rip, indEx, cache);
      if err != OK {
        if err == ENOSPC && indEx < NrIndirects(g) {
          NothingMapped(rip, cache, ChildEntry(indEx, ex), newZone);
          RootEmpty(g, rip.zone, cache.blocks, Double, ChildEntry(indEx, ex));
        }
        return;
      }
      StepFresh(g, zone0, blocks0, marks0, rip.zone, cache.blocks, Double, rip.zone[V2_NR_DZONES + 1]);
      FreshPlace(g, zone0, blocks0, marks0, rip.zone, cache.blocks, Double, rip.zone[V2_NR_DZONES + 1], newZone);
      rdflag := NO_READ;
    }
    if indEx >= NrIndirects(g) {
      return EFBIG;
    }
    ghost var zone1, blocks1, marks1, blocks2 := rip.zone, cache.blocks, rip.bitmap.Zones(), map[];
    OwnedTree(rip, cache);
    err, blocks2 := MapDouble(rip, indEx, ex, rdflag, newZone, cache);
    MappedThrough(g, zone0, blocks0, marks0, zone1, blocks1, marks1, blocks2, cache.blocks, rip.bitmap.Zones(),
        indEx, ex, newZone, err);
  }

  /** Writes a new zone into an inode. */
  method WriteMap(rip: CacheInode, position: nat, newZone: nat, cache: BlockCache) returns (err: Error)
    requires rip.Owned(cache)
    requires IsDataZone(rip.devinfo, newZone) && newZone in rip.bitmap.Zones()
    requires newZone !in TreeZones(rip.View(cache))
    modifies rip`zone, rip`dirty, cache, rip.bitmap`maps, rip.bitmap`zSearch
    ensures rip.bitmap.Ready() && |rip.zone| == V2_NR_TZONES && rip.dirty
    ensures RelZone(rip.devinfo, position) < MaxZones(rip.devinfo) ==>
              && rip.Owned(cache)
              && (err == OK || (err == ENOSPC && rip.bitmap.Zones() == rip.bitmap.AllZones()))
              && Mapped(rip.devinfo, old(rip.View(cache)), old(cache.blocks), old(rip.bitmap.Zones()),
                        rip.View(cache), cache.blocks, rip.bitmap.Zones(),
                        DataNode(rip.devinfo, RelZone(rip.devinfo, position)), newZone, err)
              && (err != OK ==> Stuck(rip.View(cache), DataNode(rip.devinfo, RelZone(rip.devinfo, position))))
    ensures RelZone(rip.devinfo, position) >= MaxZones(rip.devinfo) ==>
              && cache.blocks == old(cache.blocks)
              && PastTheEnd(rip.devinfo, old(rip.zone), old(rip.bitmap.Zones()), rip.zone, rip.bitmap.Zones(), err)
  {
    var g := rip.devinfo;
    var n := NrIndirects(g);
    var zone: nat := RelZone(g, position);
    hide Bitmap.Ready, Bitmap.Zones, Mapped, ViewOf, TreeZones, PastTheEnd, RelZone, ValidTree, DataNode, MaxZones,
        Quot, Rem, NrIndirects;
    rip.dirty := true;
    if zone < V2_NR_DZONES {
      DirectZone(g, zone);
      WriteDirect(rip, zone, newZone, cache);
      return OK;
    }
    var excess: nat := zone - V2_NR_DZONES;
    if excess < n {
      SingleZone(g, zone, excess);
      err := MapSingle(rip, excess, newZone, cache);
      return;
    }
    excess := excess - n;
    var indEx: nat := Quot(excess, n);
    DoubleZone(g, zone, excess);
    err := MapPastSingle(rip, indEx, Rem(excess, n), newZone, cache);
  }

  method WriteDirect(rip: CacheInode, zindex: nat, newZone: nat, cache: BlockCache)
    requires rip.Owned(cache) && zindex < V2_NR_DZONES
    requires IsDataZone(rip.devinfo, newZone) && newZone in rip.bitmap.Zones()
    requires newZone !in TreeZones(rip.View(cache))
    modifies rip`zone
    ensures rip.Owned(cache)
    ensures Mapped(rip.devinfo, old(rip.View(cache)), cache.blocks, rip.bitmap.Zones(),
                   rip.View(cache), cache.blocks, rip.bitmap.Zones(), Direct(zindex), newZone, OK)
  {
    var g := rip.devinfo;
    ghost var zone0 := rip.zone;
    SetDirect(g, rip.zone, cache.blocks, zindex, newZone);
    ReplacedZones(rip.View(cache), Direct(zindex), newZone);
    U32Small(newZone);
    rip.zone := rip.zone[zindex := U32(newZone)];
    GrowValid(g, zone0, cache.blocks, rip.zone, cache.blocks, Direct(zindex), newZone);
  }

  // ----- new blocks

  /** Clearing the rest of a zone is needed, and panics, where a zone is more than a block. */
  method ClearZone(rip: CacheInode)
    requires rip.devinfo.scale == 0
  {
  }

  /** The failing half of `NewBlock`'s contract: at most one zone is left. */
  ghost predicate NearlyFull(bitmap: Bitmap)
    requires bitmap.Ready()
    reads bitmap
  {
    exists z :: bitmap.AllZones() <= bitmap.Zones() + {z}
  }

  lemma OneLeft(bitmap: Bitmap, z: nat)
    requires bitmap.Ready() && bitmap.AllZones() <= bitmap.Zones() + {z}
    ensures NearlyFull(bitmap)
  {
  }

  lemma NotOwned(rip: CacheInode, cache: BlockCache)
    requires rip.Owned(cache)
    ensures 0 < rip.devinfo.blocksize && TreeZones(rip.View(cache)) <= rip.bitmap.Zones()
    ensures forall z | z !in rip.bitmap.Zones() :: z !in TreeZones(rip.View(cache))
  {
  }

  lemma MappedPlace(g: DeviceInfo, v: View, blocks: map<nat, Block>, marks: set<nat>, v': View, blocks': map<nat,
        Block>, marks': set<nat>, m: Node, z: nat, err: Error)
    requires Mapped(g, v, blocks, marks, v', blocks', marks', m, z, err)
    ensures m in v && m in v' && v'[m] == if err == OK then z else v[m]
  {
  }

  lemma ViewKeys(g: DeviceInfo, zone: seq<nat>, blocks: map<nat, Block>)
    requires |zone| == V2_NR_TZONES
    ensures ViewOf(g, zone, blocks).Keys == Nodes(NrIndirects(g))
  {
  }

  /** The block of a position whose place now holds zone `z`. */
  lemma ZoneEntered(g: DeviceInfo, zone: seq<nat>, blocks: map<nat, Block>, position: nat, z: nat)
    requires |zone| == V2_NR_TZONES && 0 < g.blocksize && z != NO_ZONE
    requires DataNode(g, RelZone(g, position)) in ViewOf(g, zone, blocks)
    requires ViewOf(g, zone, blocks)[DataNode(g, RelZone(g, position))] == z
    ensures 0 < g.blocksize * Pow2(g.scale)
    ensures Quot(BlockAt(g, zone, blocks, position), Pow2(g.scale)) == z
    ensures BlockAt(g, zone, blocks, position) ==
              ToBlock(g, z) + Quot(Rem(position, g.blocksize * Pow2(g.scale)), g.blocksize)
    ensures BlockAt(g, zone, blocks, position) != NO_BLOCK
  {
    BlockInZoneAgain(g, position);
    InZone(z, Pow2(g.scale), BlockInZone(g, position));
  }

  /** A write past the end that fails, and giving back the zone that was to be written. */
  lemma PastAndFreed(g: DeviceInfo, zone: seq<nat>, marks: set<nat>, zone': seq<nat>, marks': set<nat>, z: nat,
        err: Error)
    requires |zone| == |zone'| == V2_NR_TZONES && z !in marks
    requires PastTheEnd(g, zone, marks + {z}, zone', marks', err)
    ensures err != OK && z in marks' && PastTheEnd(g, zone, marks, zone', marks' - {z}, err)
  {
  }

  lemma NothingPast(g: DeviceInfo, zone: seq<nat>, marks: set<nat>)
    requires |zone| == V2_NR_TZONES
    ensures PastTheEnd(g, zone, marks, zone, marks, ENOSPC)
  {
  }

  /** Past the last zone a tree can hold, a position has no block in a tree without a double
      indirect zone; with one, the source reads past the end of it, and panics. */
  lemma NoBlockPast(g: DeviceInfo, zone: seq<nat>, blocks: map<nat, Block>, position: nat)
    requires |zone| == V2_NR_TZONES && 0 < g.blocksize && RelZone(g, position) >= MaxZones(g)
    requires zone[V2_NR_DZONES + 1] == NO_ZONE
    ensures BlockAt(g, zone, blocks, position) == NO_BLOCK
  {
    hide RelZone, NrIndirects, Quot, Rem;
    var k := RelZone(g, position);
    var m := DataNode(g, k);
    assert m.ChildEntry? && MaxZones(g) >= V2_NR_DZONES + NrIndirects(g) by {
      assert NrIndirects(g) * NrIndirects(g) >= 0;
    }
    assert ZoneAt(g, zone, blocks, m) == NO_ZONE;
  }

  lemma ZonesWithin(bitmap: Bitmap)
    requires bitmap.Ready()
    ensures bitmap.Zones() <= bitmap.AllZones()
  {
  }

  /** The tree took what place `m` lacked, or failed with `left` zones left: that is decided by
      how many zones were free. */
  lemma RoomDecides(rip: CacheInode, cache: BlockCache, v: View, blocks: map<nat, Block>, marks: set<nat>, m: Node,
        extra: set<nat>, ok: bool, left: nat)
    requires rip.Owned(cache) && m in Nodes(NrIndirects(rip.devinfo)) && !m.Interior()
    requires Grew(rip.devinfo, v, blocks, marks, rip.View(cache), cache.blocks, rip.bitmap.Zones(), m, extra)
    requires marks <= rip.bitmap.AllZones() && m in rip.View(cache)
    requires ok <==> rip.View(cache)[m] != NO_ZONE
    requires !ok ==> left <= 1 && |rip.bitmap.AllZones()| <= |rip.bitmap.Zones()| + left
    requires !ok && left == 1 ==> Stuck(rip.View(cache), m)
    ensures ok <==> Needs(v, m) <= |rip.bitmap.AllZones() - marks|
  {
    hide Bitmap.Ready, Bitmap.Zones, ZonesOf, DataZones, TreeZones, ViewOf, Lacking, Stuck, Nodes, IndirectBlocks;
    OwnedTree(rip, cache);
    ViewFacts(rip.devinfo, rip.zone, cache.blocks);
    ZonesWithin(rip.bitmap);
    NothingLacking(rip.devinfo, rip.zone, cache.blocks, m);
    GrewIffRoom(v, marks, rip.View(cache), rip.bitmap.Zones(), rip.bitmap.AllZones(), m, ok, left);
  }

  lemma OneFree(all: set<nat>, z: nat)
    requires z in all
    ensures |all - {z}| + 1 == |all|
  {
  }

  /** Allocates a zone for a position that has none and enters it in the inode. */
  method NewZone(rip: CacheInode, position: nat, cache: BlockCache) returns (b: nat, err: Error)
    requires rip.Owned(cache) && BlockAt(rip.devinfo, rip.zone, cache.blocks, position) == NO_BLOCK
    requires rip.devinfo.scale == 0 || position == rip.size
    modifies rip`zone, rip`dirty, cache, rip.bitmap`maps, rip.bitmap`zSearch
    ensures rip.bitmap.Ready() && |rip.zone| == V2_NR_TZONES && (err == OK ==> b != NO_BLOCK)
    ensures RelZone(rip.devinfo, position) < MaxZones(rip.devinfo) ==>
              && rip.Owned(cache)
              && (err == OK || (err == ENOSPC && b == NO_BLOCK && NearlyFull(rip.bitmap)))
              && b == BlockAt(rip.devinfo, rip.zone, cache.blocks, position)
              && Grew(rip.devinfo, old(rip.View(cache)), old(cache.blocks), old(rip.bitmap.Zones()),
                      rip.View(cache), cache.blocks, rip.bitmap.Zones(),
                      DataNode(rip.devinfo, RelZone(rip.devinfo, position)), {})
              && (err == OK <==>
                  Needs(old(rip.View(cache)), DataNode(rip.devinfo, RelZone(rip.devinfo, position))) <=
                  old(rip.bitmap.FreeZones()))
    ensures err == OK ==>
              // the first free zone around from that of the file's first zone
              FirstAround(rip.devinfo, old(rip.bitmap.Zones()), old(rip.zone[0]), old(rip.bitmap.zSearch),
                          Quot(b, Pow2(rip.devinfo.scale)))
    ensures RelZone(rip.devinfo, position) >= MaxZones(rip.devinfo) ==>
              && b == NO_BLOCK && cache.blocks == old(cache.blocks)
              && PastTheEnd(rip.devinfo, old(rip.zone), old(rip.bitmap.Zones()), rip.zone, rip.bitmap.Zones(), err)
  {
    hide Mapped, Grew, NearlyFull, ValidTree, TreeZones, Bitmap.Ready, Bitmap.Zones, BlockAt, DataNode, MaxZones,
        RelZone, ToBlock, Pow2, Rem, Quot, PastTheEnd, ViewOf, Needs, Stuck, DataZones, FirstAround;
    var g := rip.devinfo;
    OwnedZone(rip, cache);
    ghost var m, held := DataNode(g, RelZone(g, position)), RelZone(g, position) < MaxZones(g);
    ghost var zone0, blocks0, v0, marks0 := rip.zone, cache.blocks, rip.View(cache), rip.bitmap.Zones();
    if held {
      EmptyPlace(g, rip.zone, cache.blocks, position);
      DataNodeValid(g, RelZone(g, position));
      ViewKeys(g, rip.zone, cache.blocks);
    }
    NotOwned(rip, cache);
    ZonesWithin(rip.bitmap);
    var z;
    z, err := rip.bitmap.AllocZone(rip.zone[0]);
    if z == NO_ZONE {
      OneLeft(rip.bitmap, NO_ZONE);
      NothingPast(g, zone0, marks0);
      if held {
        GrewNothing(g, v0, blocks0, marks0, m);
        RoomDecides(rip, cache, v0, blocks0, marks0, m, {}, false, 0);
      }
      return NO_BLOCK, err;
    }
    err := WriteMap(rip, position, z, cache);
    if held {
      ViewKeys(g, rip.zone, cache.blocks);
      MappedGrew(g, v0, blocks0, marks0, rip.View(cache), cache.blocks, rip.bitmap.Zones(), m, z, err, {});
      EmptyPlace(g, rip.zone, cache.blocks, position);
      MappedPlace(g, v0, blocks0, marks0 + {z}, rip.View(cache), cache.blocks, rip.bitmap.Zones(), m, z, err);
    } else {
      PastAndFreed(g, zone0, marks0, rip.zone, rip.bitmap.Zones(), z, err);
    }
    if err != OK {
      rip.bitmap.FreeZone(z);
      if held {
        OneLeft(rip.bitmap, z);
        OneFree(rip.bitmap.AllZones(), z);
        RoomDecides(rip, cache, v0, blocks0, marks0, m, {}, false, 1);
      }
      return NO_BLOCK, err;
    }
    if held {
      RoomDecides(rip, cache, v0, blocks0, marks0, m, {}, true, 0);
    }
    if position != rip.size {
      ClearZone(rip);
    }
    ZoneEntered(g, rip.zone, cache.blocks, position, z);
    b := ToBlock(g, z) + Quot(Rem(position, g.blocksize * Pow2(g.scale)), g.blocksize);
  }

  /** Acquires the block of a position, in a newly allocated zone if need be, and zeroes it.
      A nil block is `NO_BLOCK`. */
  method NewBlock(rip: CacheInode, position: nat, btype: BlockType, cache: BlockCache) returns (b: nat, err: Error)
    requires rip.Owned(cache)
    requires RelZone(rip.devinfo, position) < MaxZones(rip.devinfo) || rip.zone[V2_NR_DZONES + 1] == NO_ZONE
    requires rip.devinfo.scale == 0 || position == rip.size ||
             BlockAt(rip.devinfo, rip.zone, cache.blocks, position) != NO_BLOCK
    modifies rip`zone, rip`dirty, cache, rip.bitmap`maps, rip.bitmap`zSearch
    ensures rip.bitmap.Ready() && |rip.zone| == V2_NR_TZONES
    ensures RelZone(rip.devinfo, position) < MaxZones(rip.devinfo) ==>
              && rip.Owned(cache)
              && (err == OK || (err == ENOSPC && b == NO_BLOCK && NearlyFull(rip.bitmap)))
              && b == BlockAt(rip.devinfo, rip.zone, cache.blocks, position)
              && Grew(rip.devinfo, old(rip.View(cache)), old(cache.blocks), old(rip.bitmap.Zones()),
                      rip.View(cache), cache.blocks, rip.bitmap.Zones(),
                      DataNode(rip.devinfo, RelZone(rip.devinfo, position)), if err == OK then {b} else {})
              && (err == OK <==>
                  Needs(old(rip.View(cache)), DataNode(rip.devinfo, RelZone(rip.devinfo, position))) <=
                  old(rip.bitmap.FreeZones()))
    ensures err == OK ==>
              b != NO_BLOCK && b in cache.blocks && cache.blocks[b] == ZeroOf(btype, rip.devinfo.blocksize)
    ensures RelZone(rip.devinfo, position) >= MaxZones(rip.devinfo) ==>
              && b == NO_BLOCK && cache.blocks == old(cache.blocks)
              && PastTheEnd(rip.devinfo, old(rip.zone), old(rip.bitmap.Zones()), rip.zone, rip.bitmap.Zones(), err)
  {
    var g := rip.devinfo;
    ghost var v0, blocks0, marks0 := rip.View(cache), cache.blocks, rip.bitmap.Zones();
    ghost var m, held := DataNode(g, RelZone(g, position)), RelZone(g, position) < MaxZones(g);
    OwnedZone(rip, cache);
    if held {
      EmptyPlace(g, rip.zone, cache.blocks, position);
      DataNodeValid(g, RelZone(g, position));
      NothingLacking(g, rip.zone, cache.blocks, m);
    } else {
      NoBlockPast(g, rip.zone, cache.blocks, position);
    }
    hide Needs, Bitmap.FreeZones, DataNode, Grew, Bitmap.Ready, Bitmap.Zones, NearlyFull, DataZones, MaxZones, RelZone,
        PastTheEnd, ZoneAt, TreeZones, Distinct, Sound, Typed, Untouched;
    b := ReadMap(rip, position, cache);
    if b == NO_BLOCK {
      b, err := NewZone(rip, position, cache);
      if err != OK {
        return;
      }
    } else {
      GrewNothing(g, v0, blocks0, marks0, m);
    }
    ghost var blocks1 := cache.blocks;
    cache.GetBlock(b, btype, NO_READ, g.blocksize);
    cache.ZeroBlock(b, btype, g.blocksize);
    DataBlockWritten(g, rip.zone, blocks1, cache.blocks, position);
    GrewThenFilled(g, v0, blocks0, marks0, rip.View(cache), blocks1, rip.bitmap.Zones(), cache.blocks, m, b, {});
    return b, OK;
  }
}
