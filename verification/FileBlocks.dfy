/** The blocks of a file, in order: one or more in each zone. */
module FileBlocks {
  import opened Common
  import opened Disk
  import opened Bitmaps
  import opened ZoneTree

  /** The place of the zone that block `k` of a file lies in. */
  function BlockNode(g: DeviceInfo, k: nat): Node {
    DataNode(g, Quot(k, Pow2(g.scale)))
  }

  ghost predicate HasZone(g: DeviceInfo, v: View, k: nat) {
    BlockNode(g, k) in v && v[BlockNode(g, k)] != NO_ZONE
  }

  /** Block `w` of zone `z`. */
  function ZoneBlock(g: DeviceInfo, z: nat, w: nat): nat {
    ToBlock(g, z) + w
  }

  /** The number of block `k` of a file. */
  function FileBlock(g: DeviceInfo, v: View, k: nat): nat
    requires BlockNode(g, k) in v
  {
    ZoneBlock(g, v[BlockNode(g, k)], Rem(k, Pow2(g.scale)))
  }

  /** All blocks of the zones of a tree. */
  ghost function TreeBlocks(g: DeviceInfo, v: View): set<nat> {
    set z: nat, w: nat | z in TreeZones(v) && w < Pow2(g.scale) :: ZoneBlock(g, z, w)
  }

  lemma InTreeBlocks(g: DeviceInfo, v: View, z: nat, w: nat)
    requires w < Pow2(g.scale)
    ensures ZoneBlock(g, z, w) in TreeBlocks(g, v) <==> z in TreeZones(v)
  {
    if ZoneBlock(g, z, w) in TreeBlocks(g, v) {
      var y: nat, x: nat :| y in TreeZones(v) && x < Pow2(g.scale) && ZoneBlock(g, y, x) == ZoneBlock(g, z, w);
      SameBlock(g, y, x, z, w);
    }
  }

  /** The size of the largest file a tree can hold. */
  function MaxBytes(g: DeviceInfo): nat {
    MaxZones(g) * ZoneSize(g)
  }

  /** A position below that lies in a zone that a tree has a place for. */
  lemma PositionBelow(g: DeviceInfo, position: nat)
    requires 0 < g.blocksize && position < MaxBytes(g)
    ensures RelZone(g, position) < MaxZones(g)
  {
    BlocksOfZone(position, g.blocksize, Pow2(g.scale));
    DivLess(position, ZoneSize(g), MaxZones(g));
  }

  /** The block of a position, as the zone map has it. */
  lemma PositionBlock(g: DeviceInfo, zone: seq<nat>, blocks: map<nat, Block>, position: nat)
    requires |zone| == V2_NR_TZONES && 0 < NrIndirects(g) && RelZone(g, position) < MaxZones(g)
    ensures
      var k, v := Quot(position, g.blocksize), ViewOf(g, zone, blocks);
      && DataNode(g, RelZone(g, position)) == BlockNode(g, k)
      && BlockNode(g, k) in v
      && (HasZone(g, v, k) <==> BlockAt(g, zone, blocks, position) != NO_BLOCK)
      && (HasZone(g, v, k) ==> BlockAt(g, zone, blocks, position) == FileBlock(g, v, k))
  {
    EmptyPlace(g, zone, blocks, position);
  }

  /** Different blocks of a file have different numbers. */
  lemma BlocksDiffer(g: DeviceInfo, v: View, j: nat, k: nat)
    requires 0 < NrIndirects(g) && Distinct(v) && HasZone(g, v, j) && HasZone(g, v, k) && j != k
    ensures FileBlock(g, v, j) != FileBlock(g, v, k)
  {
    var ps := Pow2(g.scale);
    FileZoneInverse(g, Quot(j, ps), Single);
    FileZoneInverse(g, Quot(k, ps), Single);
    DivMod(j, ps);
    DivMod(k, ps);
    SameBlock(g, v[BlockNode(g, j)], Rem(j, ps), v[BlockNode(g, k)], Rem(k, ps));
  }

  /** A block of a file is a block of its tree, and no indirect block. */
  lemma BlockApart(g: DeviceInfo, v: View, k: nat)
    requires 0 < NrIndirects(g) && Distinct(v) && HasZone(g, v, k)
    ensures FileBlock(g, v, k) in TreeBlocks(g, v) && FileBlock(g, v, k) !in IndirectBlocks(g, v)
  {
    var m := BlockNode(g, k);
    DataNodeValid(g, Quot(k, Pow2(g.scale)));
    DataBlockApart(g, v, m, Rem(k, Pow2(g.scale)));
    assert v[m] in TreeZones(v);
  }

  lemma IndirectInTree(g: DeviceInfo, v: View)
    ensures IndirectBlocks(g, v) <= TreeBlocks(g, v)
  {
    forall b | b in IndirectBlocks(g, v)
      ensures b in TreeBlocks(g, v)
    {
      var x :| x in v && x.Interior() && v[x] != NO_ZONE && b == ToBlock(g, v[x]);
      assert v[x] in TreeZones(v);
      InTreeBlocks(g, v, v[x], 0);
    }
  }

  /** Growing the tree for block `k`, and writing that block, leave other blocks alone. */
  lemma OtherBlock(g: DeviceInfo, v: View, blocks: map<nat, Block>, marks: set<nat>, v': View, blocks': map<nat, Block>,
        marks': set<nat>, k: nat, extra: set<nat>, j: nat)
    requires 0 < NrIndirects(g) && v.Keys == Nodes(NrIndirects(g)) && Distinct(v')
    requires Grew(g, v, blocks, marks, v', blocks', marks', BlockNode(g, k), extra)
    requires extra == {} || (HasZone(g, v', k) && extra == {FileBlock(g, v', k)})
    requires j != k && HasZone(g, v, j)
    ensures HasZone(g, v', j) && FileBlock(g, v', j) == FileBlock(g, v, j)
    ensures FileBlock(g, v', j) !in IndirectBlocks(g, v') + extra
    ensures HasZone(g, v', k) ==> FileBlock(g, v', j) != FileBlock(g, v', k)
  {
    SameOrOtherZone(g, v, v', k, j);
    BlockApart(g, v', j);
    if HasZone(g, v', k) {
      BlocksDiffer(g, v', j, k);
    }
  }

  /** The zone of a block is not changed by growing the tree for another block, unless it is
      the zone that was needed for that. */
  lemma SameOrOtherZone(g: DeviceInfo, v: View, v': View, k: nat, j: nat)
    requires 0 < NrIndirects(g) && v.Keys == Nodes(NrIndirects(g)) && BlockNode(g, j) in v
    requires GrewAbove(v, v', BlockNode(g, k)) && BlockNode(g, k) in v
    requires v[BlockNode(g, k)] != NO_ZONE ==> v'[BlockNode(g, k)] == v[BlockNode(g, k)]
    ensures v'.Keys == v.Keys
    ensures BlockNode(g, j) != BlockNode(g, k) ==> v'[BlockNode(g, j)] == v[BlockNode(g, j)]
    ensures v[BlockNode(g, j)] != NO_ZONE ==> v'[BlockNode(g, j)] == v[BlockNode(g, j)]
  {
    if BlockNode(g, j) != BlockNode(g, k) {
      DataNodeValid(g, Quot(j, Pow2(g.scale)));
      OtherZoneUnchanged(g, v, v', Quot(k, Pow2(g.scale)), Quot(j, Pow2(g.scale)));
    }
  }

  /** A tree that grew for a block, and whose blocks alone were written. */
  lemma GrewBlocks(g: DeviceInfo, v: View, blocks: map<nat, Block>, marks: set<nat>, v': View, blocks': map<nat, Block>,
        marks': set<nat>, k: nat, extra: set<nat>)
    requires 0 < NrIndirects(g) && Distinct(v')
    requires Grew(g, v, blocks, marks, v', blocks', marks', BlockNode(g, k), extra)
    requires extra == {} || (HasZone(g, v', k) && extra == {FileBlock(g, v', k)})
    ensures TreeZones(v) <= TreeZones(v') && Untouched(blocks, blocks', TreeBlocks(g, v'))
  {
    forall z | z in TreeZones(v)
      ensures z in TreeZones(v')
    {
      var p :| p in v && v[p] == z;
      assert v'[p] == z;
    }
    IndirectInTree(g, v');
    if extra != {} {
      BlockApart(g, v', k);
    }
  }

  /** No zone of the tree starts at or past `n`. */
  ghost predicate Tight(g: DeviceInfo, v: View, n: nat) {
    forall j: nat | n <= j * ZoneSize(g) && DataNode(g, j) in v :: v[DataNode(g, j)] == NO_ZONE
  }

  /** The first block of a zone. */
  lemma ZoneStart(g: DeviceInfo, k: nat)
    ensures Quot(k, Pow2(g.scale)) * ZoneSize(g) <= k * g.blocksize
  {
    var ps := Pow2(g.scale);
    DivMod(k, ps);
    MulAtMost(Quot(k, ps) * ps, k, g.blocksize);
    assert (Quot(k, ps) * ps) * g.blocksize == Quot(k, ps) * (g.blocksize * ps);
  }

  /** One more place taken keeps a tree tight if its block starts within the new extent. */
  lemma TightGrew(g: DeviceInfo, v: View, v': View, k: nat, n: nat, n': nat)
    requires 0 < NrIndirects(g) && v.Keys == Nodes(NrIndirects(g)) && GrewAbove(v, v', BlockNode(g, k))
    requires BlockNode(g, k) in v && n <= n' && (k * g.blocksize < n' || v'[BlockNode(g, k)] == NO_ZONE)
    ensures Tight(g, v, n) ==> Tight(g, v', n')
  {
    ZoneStart(g, k);
    forall j: nat | n' <= j * ZoneSize(g) && DataNode(g, j) in v
      ensures Tight(g, v, n) ==> v'[DataNode(g, j)] == NO_ZONE
    {
      DataNodeValid(g, j);
      if j != Quot(k, Pow2(g.scale)) {
        OtherZoneUnchanged(g, v, v', Quot(k, Pow2(g.scale)), j);
      }
    }
  }
}
