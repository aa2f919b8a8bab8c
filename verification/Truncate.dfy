/** Giving all zones of an inode back: `Truncate` frees the tree, and nothing but the tree. */
module Truncation {
  import opened Common
  import opened Disk
  import opened Bitmaps
  import opened ZoneTree
  import opened ZoneMap

  /** The zones that stand at the places `s`. */
  ghost function ZonesAt(v: View, s: set<Node>): set<nat> {
    set m | m in v && m in s && v[m] != NO_ZONE :: v[m]
  }

  /** The places of the first `k` zones of a file. */
  ghost function DataBelow(g: DeviceInfo, k: nat): set<Node> {
    set m | m in Nodes(NrIndirects(g)) && !m.Interior() && FileZone(g, m) < k
  }

  /** The places of zones that start at or after the end of a file of this size. */
  ghost function PastEof(g: DeviceInfo, size: nat): set<Node> {
    set m | m in Nodes(NrIndirects(g)) && !m.Interior() && size <= FileZone(g, m) * ZoneSize(g)
  }

  /** The zones that `Truncate` leaves alone are the data zones that begin at or past the end,
      the `k`th of them at byte `k` times the size of a zone. */
  lemma PastEofMeans(g: DeviceInfo, size: nat, k: nat, m: Node)
    requires 0 < NrIndirects(g) && k < MaxZones(g)
    ensures DataNode(g, k) in PastEof(g, size) <==> size <= k * (g.blocksize * Pow2(g.scale))
    ensures m.Interior() ==> m !in PastEof(g, size)
  {
    DataNodeValid(g, k);
    FileZoneInverse(g, k, Single);
  }

  ghost function Children(k: nat): set<Node> {
    set i: nat | i < k :: Child(i)
  }

  /** Freeing the zone of one more place. */
  lemma FreeOne(v: View, s: set<Node>, m: Node)
    requires Distinct(v) && m in v && m !in s
    ensures v[m] != NO_ZONE ==> v[m] !in ZonesAt(v, s) && v[m] in TreeZones(v)
    ensures ZonesAt(v, s + {m}) == if v[m] == NO_ZONE then ZonesAt(v, s) else ZonesAt(v, s) + {v[m]}
  {
  }

  /** `Truncate` gives back the whole tree exactly when no zone is mapped past the end. */
  lemma ExactFreeIff(v: View, marks: set<nat>, past: set<Node>)
    requires Distinct(v) && TreeZones(v) <= marks && past <= v.Keys
    ensures marks - ZonesAt(v, v.Keys - past) == marks - TreeZones(v) <==> forall m | m in past :: v[m] == NO_ZONE
  {
    if m :| m in past && v[m] != NO_ZONE {
      assert v[m] in TreeZones(v);
      assert v[m] in marks - ZonesAt(v, v.Keys - past);
    } else {
      forall z | z in TreeZones(v)
        ensures z in ZonesAt(v, v.Keys - past)
      {
        var m :| m in v && v[m] == z;
        assert m !in past;
      }
    }
  }

  lemma DataBelowStep(g: DeviceInfo, k: nat)
    requires 0 < NrIndirects(g) && k < MaxZones(g)
    ensures DataNode(g, k) in Nodes(NrIndirects(g)) && DataNode(g, k) !in DataBelow(g, k)
    ensures DataBelow(g, k + 1) == DataBelow(g, k) + {DataNode(g, k)}
  {
    DataNodeValid(g, k);
    FileZoneInverse(g, k, Single);
    forall m | m in Nodes(NrIndirects(g)) && !m.Interior() && FileZone(g, m) == k
      ensures m == DataNode(g, k)
    {
      FileZoneInverse(g, k, m);
    }
  }

  /** The position `k` zones into a file lies in zone `k`, at its first block. */
  lemma ZonePosition(g: DeviceInfo, k: nat, z: nat)
    requires 0 < g.blocksize
    ensures RelZone(g, k * ZoneSize(g)) == k && BlockInZone(g, k * ZoneSize(g)) == 0
    ensures Quot(ToBlock(g, z), Pow2(g.scale)) == z
  {
    var zs := Pow2(g.scale);
    BlocksOfZone(k * ZoneSize(g), g.blocksize, zs);
    DivModUnique(k * ZoneSize(g), ZoneSize(g), k, 0);
    DivModUnique(0, g.blocksize, 0, 0);
    DivModUnique(z * zs, zs, z, 0);
  }

  /** The last zone that starts before the end of the file is the last one freed. */
  lemma DataBelowEof(g: DeviceInfo, k: nat, size: nat)
    requires 0 < ZoneSize(g)
    requires size <= k * ZoneSize(g) && (k == 0 || (k - 1) * ZoneSize(g) < size)
    ensures forall m | m in Nodes(NrIndirects(g)) && !m.Interior() :: m in DataBelow(g, k) <==> m !in PastEof(g, size)
  {
    forall m | m in Nodes(NrIndirects(g)) && !m.Interior()
      ensures FileZone(g, m) < k <==> FileZone(g, m) * ZoneSize(g) < size
    {
      MulOrder(FileZone(g, m), k, ZoneSize(g));
      MulOrder(k - 1, FileZone(g, m), ZoneSize(g));
    }
  }

  lemma ChildrenStep(g: DeviceInfo, k: nat, i: nat)
    ensures
      var s := DataBelow(g, k) + {Single};
      && Single !in DataBelow(g, k)
      && Child(i) !in s + Children(i) && Double !in s + Children(i)
      && s + Children(i + 1) == s + Children(i) + {Child(i)}
      && s + Children(0) == s
  {
  }

  /** The state of the zone map when the zones at the places `s` have been freed. */
  ghost predicate Freed(rip: CacheInode, cache: BlockCache, marks: set<nat>, s: set<Node>)
    reads rip`zone, cache, rip.bitmap
  {
    && rip.bitmap.Ready()
    && |rip.zone| == V2_NR_TZONES
    && rip.bitmap.Zones() == marks - ZonesAt(rip.View(cache), s)
  }

  /** Frees the zone that stands at place `m`. */
  method FreeAt(rip: CacheInode, cache: BlockCache, ghost marks: set<nat>, ghost s: set<Node>, ghost m: Node, z: nat)
    requires Freed(rip, cache, marks, s) && rip.devinfo == rip.bitmap.devinfo
    requires ValidTree(rip.devinfo, rip.zone, cache.blocks) && TreeZones(rip.View(cache)) <= marks
    requires m in rip.View(cache) && m !in s && z == rip.View(cache)[m]
    modifies rip.bitmap`maps, rip.bitmap`zSearch
    ensures Freed(rip, cache, marks, s + {m})
  {
    FreeOne(rip.View(cache), s, m);
    rip.bitmap.FreeZone(z);
  }

  lemma ZoneSizePositive(g: DeviceInfo)
    requires 0 < NrIndirects(g)
    ensures 0 < ZoneSize(g)
  {
    MulGrows(Pow2(g.scale), g.blocksize);
  }

  lemma NothingFreed(rip: CacheInode, cache: BlockCache)
    requires rip.Owned(cache)
    ensures Freed(rip, cache, rip.bitmap.Zones(), DataBelow(rip.devinfo, 0))
  {
    assert ZonesAt(rip.View(cache), DataBelow(rip.devinfo, 0)) == {};
  }

  lemma NextPosition(k: nat, zoneSize: nat)
    ensures (k + 1) * zoneSize == k * zoneSize + zoneSize && (k + 1 - 1) * zoneSize == k * zoneSize
  {
  }

  /** Frees the zones of the file, one position after the other. */
  method FreeData(rip: CacheInode, cache: BlockCache) returns (ghost k: nat)
    requires rip.Owned(cache) && rip.size <= MaxZones(rip.devinfo) * ZoneSize(rip.devinfo)
    modifies cache, rip.bitmap`maps, rip.bitmap`zSearch
    ensures cache.blocks == old(cache.blocks)
    ensures Freed(rip, cache, old(rip.bitmap.Zones()), DataBelow(rip.devinfo, k))
    ensures rip.size <= k * ZoneSize(rip.devinfo) && (k == 0 || (k - 1) * ZoneSize(rip.devinfo) < rip.size)
  {
    hide DataBelow, ZonesAt, ZoneSize, Pow2, ToBlock, Bitmap.Ready, Bitmap.Zones, TreeZones, MaxZones, DataNode;
    var g := rip.devinfo;
    ZoneSizePositive(g);
    var zoneSize := ZoneSize(g);
    ghost var marks := rip.bitmap.Zones();
    NothingFreed(rip, cache);
    var position: nat := 0;
    k := 0;
    while position < rip.size
      invariant position == k * zoneSize && cache.blocks == old(cache.blocks)
      invariant k == 0 || (k - 1) * zoneSize < rip.size
      invariant Freed(rip, cache, marks, DataBelow(g, k))
      decreases rip.size - position
    {
      MulOrder(MaxZones(g), k, zoneSize);
      ZonePosition(g, k, 0);
      DataBelowStep(g, k);
      EmptyPlace(g, rip.zone, cache.blocks, position);
      var b := ReadMap(rip, position, cache);
      ghost var m := DataNode(g, k);
      if b != NO_BLOCK {
        ZonePosition(g, k, rip.View(cache)[m]);
        FreeAt(rip, cache, marks, DataBelow(g, k), m, Quot(b, Pow2(g.scale)));
      } else {
        FreeOne(rip.View(cache), DataBelow(g, k), m);
      }
      NextPosition(k, zoneSize);
      position := position + zoneSize;
      k := k + 1;
    }
  }

  /** Frees the indirect blocks that hang under the double indirect block in block `b`. */
  method FreeChildren(rip: CacheInode, cache: BlockCache, b: nat, ghost marks: set<nat>, ghost k: nat)
    requires rip.devinfo == rip.bitmap.devinfo && ValidTree(rip.devinfo, rip.zone, cache.blocks)
    requires TreeZones(rip.View(cache)) <= marks
    requires Freed(rip, cache, marks, DataBelow(rip.devinfo, k) + {Single})
    requires rip.zone[V2_NR_DZONES + 1] != NO_ZONE && b == ToBlock(rip.devinfo, rip.zone[V2_NR_DZONES + 1])
    modifies cache, rip.bitmap`maps, rip.bitmap`zSearch
    ensures cache.blocks == old(cache.blocks)
    ensures Freed(rip, cache, marks, DataBelow(rip.devinfo, k) + {Single} + Children(NrIndirects(rip.devinfo)))
  {
    hide DataBelow, Children, ZonesAt, Pow2, ToBlock, Bitmap.Ready, Bitmap.Zones, TreeZones, Distinct;
    var g := rip.devinfo;
    var n := NrIndirects(g);
    ghost var s := DataBelow(g, k) + {Single};
    InteriorIndirect(g, rip.zone, cache.blocks, Double);
    ChildrenStep(g, k, 0);
    cache.GetBlock(b, INDIRECT_BLOCK, NORMAL, g.blocksize);
    for i := 0 to n
      invariant cache.blocks == old(cache.blocks)
      invariant Freed(rip, cache, marks, s + Children(i))
    {
      assert Child(i) in rip.View(cache);
      var z1 := RdIndir(cache, b, i, g.firstdatazone, g.zones);
      ChildrenStep(g, k, i);
      FreeAt(rip, cache, marks, s + Children(i), Child(i), z1);
    }
  }

  /** Removes all the zones from the inode. */
  method Truncate(rip: CacheInode, cache: BlockCache)
    requires rip.Owned(cache) && rip.size <= MaxZones(rip.devinfo) * ZoneSize(rip.devinfo)
    modifies rip`dirty, cache, rip.bitmap`maps, rip.bitmap`zSearch
    ensures rip.bitmap.Ready() && cache.blocks == old(cache.blocks)
    ensures rip.ftype == CHAR_SPECIAL || rip.ftype == BLOCK_SPECIAL ==>
              rip.bitmap.Zones() == old(rip.bitmap.Zones()) && rip.dirty == old(rip.dirty)
    ensures rip.ftype != CHAR_SPECIAL && rip.ftype != BLOCK_SPECIAL ==> rip.dirty
    ensures rip.ftype != CHAR_SPECIAL && rip.ftype != BLOCK_SPECIAL ==>
              rip.bitmap.Zones() ==
              old(rip.bitmap.Zones()) - ZonesAt(rip.View(cache), rip.View(cache).Keys - PastEof(rip.devinfo, rip.size))
  {
    hide DataBelow, Children, PastEof, ZonesAt, ZoneSize, Pow2, ToBlock, Bitmap.Ready, Bitmap.Zones, TreeZones,
        Distinct, Sound, Typed;
    if rip.ftype == CHAR_SPECIAL || rip.ftype == BLOCK_SPECIAL {
      return;
    }
    var g := rip.devinfo;
    ghost var marks := rip.bitmap.Zones();
    ghost var k := FreeData(rip, cache);
    rip.dirty := true;
    ZoneSizePositive(g);
    FreedAll(g, rip.zone, cache.blocks, k, rip.size);
    ChildrenStep(g, k, NrIndirects(g));
    FreeAt(rip, cache, marks, DataBelow(g, k), Single, rip.zone[V2_NR_DZONES]);
    var z := rip.zone[V2_NR_DZONES + 1];
    if z != NO_ZONE {
      FreeChildren(rip, cache, ToBlock(g, z), marks, k);
      FreeAt(rip, cache, marks, DataBelow(g, k) + {Single} + Children(NrIndirects(g)), Double, z);
    }
  }

  /** All places but those past the end have been freed, or hold no zone. */
  lemma FreedAll(g: DeviceInfo, zone: seq<nat>, blocks: map<nat, Block>, k: nat, size: nat)
    requires |zone| == V2_NR_TZONES && 0 < ZoneSize(g)
    requires size <= k * ZoneSize(g) && (k == 0 || (k - 1) * ZoneSize(g) < size)
    ensures
      var v := ViewOf(g, zone, blocks);
      var s := DataBelow(g, k) + {Single};
      ZonesAt(v, v.Keys - PastEof(g, size)) ==
      ZonesAt(v, if v[Double] == NO_ZONE then s else s + Children(NrIndirects(g)) + {Double})
  {
    var v := ViewOf(g, zone, blocks);
    var s := DataBelow(g, k) + {Single};
    var t := if v[Double] == NO_ZONE then s else s + Children(NrIndirects(g)) + {Double};
    DataBelowEof(g, k, size);
    forall m | m in v && v[m] != NO_ZONE
      ensures m in t <==> m in v.Keys - PastEof(g, size)
    {
    }
  }
}
