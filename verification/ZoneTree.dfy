/** A MINIX V2 inode as a tree of zones: seven direct zones, one single-indirect zone and
    one double-indirect zone. This file is about the tree as a value; the code that walks
    and grows it is in ZoneMap.dfy. */
module ZoneTree {
  import opened Common
  import opened Disk
  import opened Bitmaps

  /** The places a zone number can stand in. `SingleEntry(j)` is entry `j` of the single
      indirect block; `Child(i)` is entry `i` of the double indirect block, itself an
      indirect block with entries `ChildEntry(i, j)`. */
  datatype Node =
    | Direct(k: nat)
    | Single
    | SingleEntry(j: nat)
    | Double
    | Child(i: nat)
    | ChildEntry(i: nat, j: nat)
  {
    predicate Interior() {
      Single? || Double? || Child?
    }
  }

  type View = map<Node, nat>

  ghost function Nodes(n: nat): set<Node> {
    (set k: nat | k < V2_NR_DZONES :: Direct(k))
    + {Single, Double}
    + (set j: nat | j < n :: SingleEntry(j))
    + (set i: nat | i < n :: Child(i))
    + (set i: nat, j: nat | i < n && j < n :: ChildEntry(i, j))
  }

  /** The number of zone numbers an indirect block holds. */
  function NrIndirects(g: DeviceInfo): nat {
    g.blocksize / 4
  }

  /** The first block of a zone. */
  function ToBlock(g: DeviceInfo, z: nat): nat {
    z * Pow2(g.scale)
  }

  lemma ToBlockInjective(g: DeviceInfo)
    ensures forall y: nat, z: nat :: ToBlock(g, y) == ToBlock(g, z) ==> y == z
  {
    forall y: nat, z: nat | ToBlock(g, y) == ToBlock(g, z)
      ensures y == z
    {
      assert (y - z) * Pow2(g.scale) == 0;
      MulSmall(y - z, Pow2(g.scale));
    }
  }

  /** Entry `j` of the indirect block in zone `z`. */
  function Entry(g: DeviceInfo, blocks: map<nat, Block>, z: nat, j: nat): nat {
    if IsIndirect(g, blocks, z) && j < NrIndirects(g) then blocks[ToBlock(g, z)].zones[j] else NO_ZONE
  }

  predicate IsIndirect(g: DeviceInfo, blocks: map<nat, Block>, z: nat) {
    && z != NO_ZONE
    && ToBlock(g, z) in blocks
    && blocks[ToBlock(g, z)].Indirect?
    && |blocks[ToBlock(g, z)].zones| == NrIndirects(g)
  }

  function ZoneAt(g: DeviceInfo, zone: seq<nat>, blocks: map<nat, Block>, m: Node): nat
    requires |zone| == V2_NR_TZONES
  {
    match m
    case Direct(k) => if k < V2_NR_DZONES then zone[k] else NO_ZONE
    case Single => zone[V2_NR_DZONES]
    case SingleEntry(j) => Entry(g, blocks, zone[V2_NR_DZONES], j)
    case Double => zone[V2_NR_DZONES + 1]
    case Child(i) => Entry(g, blocks, zone[V2_NR_DZONES + 1], i)
    case ChildEntry(i, j) => Entry(g, blocks, Entry(g, blocks, zone[V2_NR_DZONES + 1], i), j)
  }

  /** The whole tree, place by place. */
  ghost function ViewOf(g: DeviceInfo, zone: seq<nat>, blocks: map<nat, Block>): View
    requires |zone| == V2_NR_TZONES
  {
    map m | m in Nodes(NrIndirects(g)) :: ZoneAt(g, zone, blocks, m)
  }

  ghost predicate Sound(g: DeviceInfo, v: View) {
    forall m | m in v && v[m] != NO_ZONE :: IsDataZone(g, v[m])
  }

  ghost predicate Distinct(v: View) {
    forall a, b | a in v && b in v && a != b && v[a] != NO_ZONE :: v[a] != v[b]
  }

  ghost predicate Typed(g: DeviceInfo, blocks: map<nat, Block>, v: View) {
    forall m | m in v && m.Interior() && v[m] != NO_ZONE :: IsIndirect(g, blocks, v[m])
  }

  /** The zones of the tree. */
  ghost function TreeZones(v: View): set<nat> {
    v.Values - {NO_ZONE}
  }

  ghost predicate ValidTree(g: DeviceInfo, zone: seq<nat>, blocks: map<nat, Block>) {
    && |zone| == V2_NR_TZONES
    && 0 < g.firstdatazone
    && var v := ViewOf(g, zone, blocks);
    Sound(g, v) && Distinct(v) && Typed(g, blocks, v)
  }

  // ----- growing the tree by one place at a time

  lemma SetDirect(g: DeviceInfo, zone: seq<nat>, blocks: map<nat, Block>, k: nat, z: nat)
    requires |zone| == V2_NR_TZONES && k < V2_NR_DZONES
    ensures ViewOf(g, zone[k := z], blocks) == ViewOf(g, zone, blocks)[Direct(k) := z]
  {
  }

  /** A tree that differs in one place. */
  lemma ViewUpdated(g: DeviceInfo, zone: seq<nat>, blocks: map<nat, Block>, zone': seq<nat>, blocks': map<nat,
        Block>, p: Node, z: nat)
    requires |zone| == |zone'| == V2_NR_TZONES && p in Nodes(NrIndirects(g))
    requires forall m | m in Nodes(NrIndirects(g)) :: ZoneAt(g, zone', blocks', m) == if m == p then z
              else ZoneAt(g, zone, blocks, m)
    ensures ViewOf(g, zone', blocks') == ViewOf(g, zone, blocks)[p := z]
  {
    hide ZoneAt, Nodes, NrIndirects;
  }

  /** A zone that is not in the tree stands in none of its places. */
  lemma NotInTree(g: DeviceInfo, zone: seq<nat>, blocks: map<nat, Block>, z: nat, m: Node)
    requires |zone| == V2_NR_TZONES && m in Nodes(NrIndirects(g))
    requires z != NO_ZONE && z !in TreeZones(ViewOf(g, zone, blocks))
    ensures ZoneAt(g, zone, blocks, m) != z
  {
    assert ViewOf(g, zone, blocks)[m] == ZoneAt(g, zone, blocks, m);
  }

  lemma RootPlaces(n: nat)
    ensures Single in Nodes(n) && Double in Nodes(n)
    ensures forall m | m in Nodes(n) && m.ChildEntry? :: Child(m.i) in Nodes(n)
  {
  }

  /** Hanging a zeroed indirect block in zone `z` under the inode. */
  lemma AttachRoot(g: DeviceInfo, zone: seq<nat>, blocks: map<nat, Block>, r: Node, z: nat)
    requires ValidTree(g, zone, blocks)
    requires r == Single || r == Double
    requires ZoneAt(g, zone, blocks, r) == NO_ZONE
    requires z != NO_ZONE && z !in TreeZones(ViewOf(g, zone, blocks))
    ensures
      var zone' := zone[if r == Single then V2_NR_DZONES else V2_NR_DZONES + 1 := z];
      var blocks' := blocks[ToBlock(g, z) := ZeroOf(INDIRECT_BLOCK, g.blocksize)];
      ViewOf(g, zone', blocks') == ViewOf(g, zone, blocks)[r := z]
  {
    hide ViewOf, TreeZones, Sound, Distinct, Typed, Nodes;
    var zone' := zone[if r == Single then V2_NR_DZONES else V2_NR_DZONES + 1 := z];
    var blocks' := blocks[ToBlock(g, z) := ZeroOf(INDIRECT_BLOCK, g.blocksize)];
    RootPlaces(NrIndirects(g));
    forall m | m in Nodes(NrIndirects(g))
      ensures ZoneAt(g, zone', blocks', m) == if m == r then z else ZoneAt(g, zone, blocks, m)
    {
      AttachRootAt(g, zone, blocks, r, z, m);
    }
    ViewUpdated(g, zone, blocks, zone', blocks', r, z);
  }

  lemma AttachRootAt(g: DeviceInfo, zone: seq<nat>, blocks: map<nat, Block>, r: Node, z: nat, m: Node)
    requires |zone| == V2_NR_TZONES && m in Nodes(NrIndirects(g))
    requires r == Single || r == Double
    requires ZoneAt(g, zone, blocks, r) == NO_ZONE
    requires z != NO_ZONE && z !in TreeZones(ViewOf(g, zone, blocks))
    ensures
      var zone' := zone[if r == Single then V2_NR_DZONES else V2_NR_DZONES + 1 := z];
      var blocks' := blocks[ToBlock(g, z) := ZeroOf(INDIRECT_BLOCK, g.blocksize)];
      ZoneAt(g, zone', blocks', m) == if m == r then z else ZoneAt(g, zone, blocks, m)
  {
    hide ViewOf, TreeZones;
    EntriesFrame(g, blocks, blocks[ToBlock(g, z) := ZeroOf(INDIRECT_BLOCK, g.blocksize)], z);
    RootPlaces(NrIndirects(g));
    NotInTree(g, zone, blocks, z, Single);
    NotInTree(g, zone, blocks, z, Double);
    if m.ChildEntry? {
      NotInTree(g, zone, blocks, z, Child(m.i));
    }
  }

  /** Changing the block of zone `z` leaves the entries of other zones' blocks alone. */
  lemma EntriesFrame(g: DeviceInfo, blocks: map<nat, Block>, blocks': map<nat, Block>, z: nat)
    requires ToBlock(g, z) in blocks' && blocks' == blocks[ToBlock(g, z) := blocks'[ToBlock(g, z)]]
    ensures forall y: nat, j: nat | y != z :: Entry(g, blocks', y, j) == Entry(g, blocks, y, j)
    ensures forall y: nat | y != z :: IsIndirect(g, blocks', y) == IsIndirect(g, blocks, y)
  {
    ToBlockInjective(g);
  }

  /** Writing one entry of the indirect block in zone `z`. */
  function WithEntry(g: DeviceInfo, blocks: map<nat, Block>, z: nat, j: nat, value: nat): map<nat, Block>
    requires IsIndirect(g, blocks, z) && j < NrIndirects(g)
  {
    var b := ToBlock(g, z);
    blocks[b := Indirect(blocks[b].zones[j := value])]
  }

  lemma WithEntryAt(g: DeviceInfo, blocks: map<nat, Block>, z: nat, j: nat, value: nat)
    requires IsIndirect(g, blocks, z) && j < NrIndirects(g)
    ensures
      var blocks' := WithEntry(g, blocks, z, j, value);
      && (forall y: nat, k: nat ::
            Entry(g, blocks', y, k) == if y == z && k == j then value else Entry(g, blocks, y, k))
      && (forall y: nat :: IsIndirect(g, blocks', y) == IsIndirect(g, blocks, y))
  {
    EntriesFrame(g, blocks, WithEntry(g, blocks, z, j, value), z);
  }

  /** The indirect block an entry stands in. */
  function Parent(m: Node): Node
    requires m.SingleEntry? || m.Child? || m.ChildEntry?
  {
    match m
    case SingleEntry(_) => Single
    case Child(_) => Double
    case ChildEntry(i, _) => Child(i)
  }

  function Index(m: Node): nat
    requires m.SingleEntry? || m.Child? || m.ChildEntry?
  {
    match m
    case SingleEntry(j) => j
    case Child(i) => i
    case ChildEntry(_, j) => j
  }

  /** Writing a data zone number into an existing indirect block. */
  lemma SetEntry(g: DeviceInfo, zone: seq<nat>, blocks: map<nat, Block>, m: Node, z: nat)
    requires ValidTree(g, zone, blocks)
    requires m in Nodes(NrIndirects(g)) && (m.SingleEntry? || m.ChildEntry?)
    requires ZoneAt(g, zone, blocks, Parent(m)) != NO_ZONE
    ensures IsIndirect(g, blocks, ZoneAt(g, zone, blocks, Parent(m)))
    ensures ViewOf(g, zone, WithEntry(g, blocks, ZoneAt(g, zone, blocks, Parent(m)), Index(m), z)) ==
            ViewOf(g, zone, blocks)[m := z]
  {
    hide ViewOf, Sound, TreeZones;
    InteriorParent(g, zone, blocks, m);
    var p := ZoneAt(g, zone, blocks, Parent(m));
    var blocks' := WithEntry(g, blocks, p, Index(m), z);
    forall x | x in Nodes(NrIndirects(g))
      ensures ZoneAt(g, zone, blocks', x) == if x == m then z else ZoneAt(g, zone, blocks, x)
    {
      SetEntryAt(g, zone, blocks, m, z, x);
    }
    ViewUpdated(g, zone, blocks, zone, blocks', m, z);
  }

  lemma InteriorParent(g: DeviceInfo, zone: seq<nat>, blocks: map<nat, Block>, m: Node)
    requires ValidTree(g, zone, blocks)
    requires m in Nodes(NrIndirects(g)) && (m.SingleEntry? || m.Child? || m.ChildEntry?)
    requires ZoneAt(g, zone, blocks, Parent(m)) != NO_ZONE
    ensures Parent(m) in Nodes(NrIndirects(g)) && IsIndirect(g, blocks, ZoneAt(g, zone, blocks, Parent(m)))
    ensures Index(m) < NrIndirects(g)
  {
    assert ViewOf(g, zone, blocks)[Parent(m)] == ZoneAt(g, zone, blocks, Parent(m));
  }

  /** Two places of a tree that hold the same zone are one, or hold none. */
  lemma PlacesDistinct(g: DeviceInfo, zone: seq<nat>, blocks: map<nat, Block>, a: Node, b: Node)
    requires ValidTree(g, zone, blocks) && a in Nodes(NrIndirects(g)) && b in Nodes(NrIndirects(g))
    ensures ZoneAt(g, zone, blocks, a) == ZoneAt(g, zone, blocks, b) != NO_ZONE ==> a == b
  {
    assert ViewOf(g, zone, blocks)[a] == ZoneAt(g, zone, blocks, a);
    assert ViewOf(g, zone, blocks)[b] == ZoneAt(g, zone, blocks, b);
  }

  lemma SetEntryAt(g: DeviceInfo, zone: seq<nat>, blocks: map<nat, Block>, m: Node, z: nat, x: Node)
    requires ValidTree(g, zone, blocks)
    requires m in Nodes(NrIndirects(g)) && (m.SingleEntry? || m.ChildEntry?) && x in Nodes(NrIndirects(g))
    requires Index(m) < NrIndirects(g) && IsIndirect(g, blocks, ZoneAt(g, zone, blocks, Parent(m)))
    ensures
      var blocks' := WithEntry(g, blocks, ZoneAt(g, zone, blocks, Parent(m)), Index(m), z);
      ZoneAt(g, zone, blocks', x) == if x == m then z else ZoneAt(g, zone, blocks, x)
  {
    hide ViewOf, Sound, Distinct, Typed, TreeZones;
    var p := ZoneAt(g, zone, blocks, Parent(m));
    WithEntryAt(g, blocks, p, Index(m), z);
    RootPlaces(NrIndirects(g));
    PlacesDistinct(g, zone, blocks, Parent(m), Single);
    PlacesDistinct(g, zone, blocks, Parent(m), Double);
    if x.ChildEntry? {
      PlacesDistinct(g, zone, blocks, Parent(m), Child(x.i));
    }
  }

  /** Hanging a zeroed indirect block in zone `z` under the double indirect block. */
  lemma AttachChild(g: DeviceInfo, zone: seq<nat>, blocks: map<nat, Block>, i: nat, z: nat)
    requires ValidTree(g, zone, blocks)
    requires i < NrIndirects(g)
    requires ZoneAt(g, zone, blocks, Double) != NO_ZONE && ZoneAt(g, zone, blocks, Child(i)) == NO_ZONE
    requires z != NO_ZONE && z !in TreeZones(ViewOf(g, zone, blocks))
    ensures IsIndirect(g, blocks, ZoneAt(g, zone, blocks, Double))
    ensures
      var blocks' := WithEntry(g, blocks, ZoneAt(g, zone, blocks, Double), i, z);
      ViewOf(g, zone, blocks'[ToBlock(g, z) := ZeroOf(INDIRECT_BLOCK, g.blocksize)]) ==
      ViewOf(g, zone, blocks)[Child(i) := z]
  {
    hide ViewOf, Sound, TreeZones;
    InteriorParent(g, zone, blocks, Child(i));
    var d := ZoneAt(g, zone, blocks, Double);
    var blocks2 := WithEntry(g, blocks, d, i, z)[ToBlock(g, z) := ZeroOf(INDIRECT_BLOCK, g.blocksize)];
    forall x | x in Nodes(NrIndirects(g))
      ensures ZoneAt(g, zone, blocks2, x) == if x == Child(i) then z else ZoneAt(g, zone, blocks, x)
    {
      AttachChildAt(g, zone, blocks, i, z, x);
    }
    ViewUpdated(g, zone, blocks, zone, blocks2, Child(i), z);
  }

  lemma AttachChildAt(g: DeviceInfo, zone: seq<nat>, blocks: map<nat, Block>, i: nat, z: nat, x: Node)
    requires ValidTree(g, zone, blocks)
    requires i < NrIndirects(g) && x in Nodes(NrIndirects(g))
    requires IsIndirect(g, blocks, ZoneAt(g, zone, blocks, Double)) && ZoneAt(g, zone, blocks, Child(i)) == NO_ZONE
    requires z != NO_ZONE && z !in TreeZones(ViewOf(g, zone, blocks))
    ensures
      var blocks2 := WithEntry(g, blocks, ZoneAt(g, zone, blocks, Double), i,
          z)[ToBlock(g, z) := ZeroOf(INDIRECT_BLOCK, g.blocksize)];
      ZoneAt(g, zone, blocks2, x) == if x == Child(i) then z else ZoneAt(g, zone, blocks, x)
  {
    hide ViewOf, Sound, Distinct, Typed, TreeZones;
    var d := ZoneAt(g, zone, blocks, Double);
    WithEntryAt(g, blocks, d, i, z);
    var blocks1 := WithEntry(g, blocks, d, i, z);
    EntriesFrame(g, blocks1, blocks1[ToBlock(g, z) := ZeroOf(INDIRECT_BLOCK, g.blocksize)], z);
    RootPlaces(NrIndirects(g));
    NotInTree(g, zone, blocks, z, Single);
    NotInTree(g, zone, blocks, z, Double);
    PlacesDistinct(g, zone, blocks, Single, Double);
    if x.ChildEntry? {
      NotInTree(g, zone, blocks, z, Child(x.i));
      PlacesDistinct(g, zone, blocks, Double, Child(x.i));
    }
  }

  /** One place taking a new zone keeps the tree valid. */
  lemma GrowValid(g: DeviceInfo, zone: seq<nat>, blocks: map<nat, Block>, zone': seq<nat>, blocks': map<nat, Block>,
        m: Node, z: nat)
    requires ValidTree(g, zone, blocks)
    requires |zone'| == V2_NR_TZONES && m in Nodes(NrIndirects(g))
    requires ViewOf(g, zone', blocks') == ViewOf(g, zone, blocks)[m := z]
    requires IsDataZone(g, z) && z !in TreeZones(ViewOf(g, zone, blocks))
    requires m.Interior() ==> IsIndirect(g, blocks', z)
    requires forall y: nat | y != z && IsIndirect(g, blocks, y) :: IsIndirect(g, blocks', y)
    ensures ValidTree(g, zone', blocks')
  {
  }

  // ----- positions

  /** The bytes of a zone. */
  function ZoneSize(g: DeviceInfo): nat {
    g.blocksize * Pow2(g.scale)
  }

  /** The zone of a position, counted from the start of the file. */
  function RelZone(g: DeviceInfo, position: nat): nat
    requires 0 < g.blocksize
  {
    Quot(Quot(position, g.blocksize), Pow2(g.scale))
  }

  /** The block of a position, counted from the start of its zone. */
  function BlockInZone(g: DeviceInfo, position: nat): nat
    requires 0 < g.blocksize
  {
    Rem(Quot(position, g.blocksize), Pow2(g.scale))
  }

  /** The number of zones a file can have. */
  function MaxZones(g: DeviceInfo): nat {
    V2_NR_DZONES + NrIndirects(g) + NrIndirects(g) * NrIndirects(g)
  }

  /** The place of the `k`th zone of a file. */
  function DataNode(g: DeviceInfo, k: nat): Node {
    var n := NrIndirects(g);
    if k < V2_NR_DZONES then Direct(k)
    else if k - V2_NR_DZONES < n then SingleEntry(k - V2_NR_DZONES)
    else if n == 0 then ChildEntry(0, 0)
    else ChildEntry(Quot(k - V2_NR_DZONES - n, n), Rem(k - V2_NR_DZONES - n, n))
  }

  lemma DataNodeValid(g: DeviceInfo, k: nat)
    requires 0 < NrIndirects(g)
    ensures DataNode(g, k) in Nodes(NrIndirects(g)) <==> k < MaxZones(g)
    ensures !DataNode(g, k).Interior()
  {
    var n := NrIndirects(g);
    if k >= V2_NR_DZONES + n {
      var e := k - V2_NR_DZONES - n;
      if e < n * n {
        DivLess(e, n, n);
      } else {
        DivAtLeast(e, n, n);
      }
    }
  }

  /** The three ranges of zones, as the code tells them apart. */
  lemma DirectZone(g: DeviceInfo, k: nat)
    requires k < V2_NR_DZONES
    ensures k < MaxZones(g) && DataNode(g, k) == Direct(k)
  {
  }

  lemma SingleZone(g: DeviceInfo, k: nat, excess: nat)
    requires k == V2_NR_DZONES + excess && excess < NrIndirects(g)
    ensures k < MaxZones(g) && DataNode(g, k) == SingleEntry(excess)
  {
  }

  lemma DoubleZone(g: DeviceInfo, k: nat, excess: nat)
    requires 0 < NrIndirects(g) && k == V2_NR_DZONES + NrIndirects(g) + excess
    ensures DataNode(g, k) == ChildEntry(Quot(excess, NrIndirects(g)), Rem(excess, NrIndirects(g)))
    ensures k < MaxZones(g) <==> Quot(excess, NrIndirects(g)) < NrIndirects(g)
  {
    DataNodeValid(g, k);
    assert k - V2_NR_DZONES - NrIndirects(g) == excess;
  }

  /** Where the zone of a place lies in the file. */
  function FileZone(g: DeviceInfo, m: Node): nat
    requires m.Direct? || m.SingleEntry? || m.ChildEntry?
  {
    match m
    case Direct(k) => k
    case SingleEntry(j) => V2_NR_DZONES + j
    case ChildEntry(i, j) => V2_NR_DZONES + NrIndirects(g) + i * NrIndirects(g) + j
  }

  /** The places of data zones and the zones of a file correspond one to one. */
  lemma FileZoneInverse(g: DeviceInfo, k: nat, m: Node)
    requires 0 < NrIndirects(g)
    ensures FileZone(g, DataNode(g, k)) == k
    ensures m in Nodes(NrIndirects(g)) && !m.Interior() ==>
              FileZone(g, m) < MaxZones(g) && DataNode(g, FileZone(g, m)) == m
  {
    var n := NrIndirects(g);
    if k >= V2_NR_DZONES + n {
      DivMod(k - V2_NR_DZONES - n, n);
    }
    if m in Nodes(n) && m.ChildEntry? {
      var e := m.i * n + m.j;
      DivModUnique(e, n, m.i, m.j);
      InnerBound(m.i, n, m.j, n);
      assert V2_NR_DZONES + n + e == FileZone(g, m);
    }
  }

  /** What `ReadMap` should answer: the block of a position, or `NO_BLOCK`. */
  function BlockAt(g: DeviceInfo, zone: seq<nat>, blocks: map<nat, Block>, position: nat): nat
    requires |zone| == V2_NR_TZONES && 0 < g.blocksize
  {
    var z := ZoneAt(g, zone, blocks, DataNode(g, RelZone(g, position)));
    if z == NO_ZONE then NO_BLOCK else ToBlock(g, z) + BlockInZone(g, position)
  }

  /** The block of a position by numbers. Divided by the blocks of a zone it is the zone at the
      place of the position's zone; what remains is the position's block within that zone. The
      file's blocks follow one another without gaps. */
  lemma BlockAtMeans(g: DeviceInfo, zone: seq<nat>, blocks: map<nat, Block>, position: nat)
    requires |zone| == V2_NR_TZONES && 0 < g.blocksize
    ensures
      var s, k, b := Pow2(g.scale), RelZone(g, position), BlockAt(g, zone, blocks, position);
      var z := ZoneAt(g, zone, blocks, DataNode(g, k));
      if z == NO_ZONE then b == NO_BLOCK
      else
        && b != NO_BLOCK && b / s == z
        && (k * s + b % s) * g.blocksize <= position < (k * s + b % s) * g.blocksize + g.blocksize
    ensures
      var k := RelZone(g, position);
      k * (g.blocksize * Pow2(g.scale)) <= position < (k + 1) * (g.blocksize * Pow2(g.scale))
  {
    hide ZoneAt, DataNode, Pow2;
    InZone(ZoneAt(g, zone, blocks, DataNode(g, RelZone(g, position))), Pow2(g.scale), BlockInZone(g, position));
    PositionCut(position, g.blocksize, Pow2(g.scale));
    hide RelZone, BlockInZone, Quot, Rem;
    assert RelZone(g, position) == Quot(Quot(position, g.blocksize), Pow2(g.scale));
    assert BlockInZone(g, position) == Rem(Quot(position, g.blocksize), Pow2(g.scale));
  }

  lemma PositionCut(position: nat, bs: nat, s: nat)
    requires 0 < bs && 0 < s
    ensures
      var k, w := Quot(Quot(position, bs), s), Rem(Quot(position, bs), s);
      && (k * s + w) * bs <= position < (k * s + w) * bs + bs
      && k * (bs * s) <= position < (k + 1) * (bs * s)
  {
    var p := position / bs;
    DivMod(position, bs);
    DivMod(p, s);
    var k, w := p / s, p % s;
    assert p == k * s + w;
    MulAtMost(k * s, p, bs);
    MulAtMost(p + 1, k * s + s, bs);
    assert (k * s) * bs == k * (bs * s) && (k * s + s) * bs == (k + 1) * (bs * s);
    assert (p + 1) * bs == p * bs + bs;
  }

  lemma InZone(z: nat, s: nat, w: nat)
    requires w < s
    ensures (z * s + w) / s == z && (z * s + w) % s == w && (z > 0 ==> z * s + w > 0)
  {
    MulGrows(z, s);
    DivModUnique(z * s + w, s, z, w);
  }

  /** The `k`th zone of a file by numbers: the first seven stand in the inode, those after them
      in the indirect block that the eighth names, and the rest, as many times as an indirect
      block has entries, in the blocks that the entries of the ninth name. */
  lemma FileZoneMeans(g: DeviceInfo, zone: seq<nat>, blocks: map<nat, Block>, k: nat)
    requires ValidTree(g, zone, blocks) && 0 < g.blocksize / 4
    ensures
      var n, s := g.blocksize / 4, Pow2(g.scale);
      var z := ZoneAt(g, zone, blocks, DataNode(g, k));
      && (k < 7 ==> z == zone[k])
      && (7 <= k < 7 + n ==>
            if zone[7] == 0 then z == 0
            else
              && zone[7] * s in blocks && blocks[zone[7] * s].Indirect? && |blocks[zone[7] * s].zones| == n
              && z == blocks[zone[7] * s].zones[k - 7])
      && (7 + n <= k < 7 + n + n * n ==>
            var e: nat := k - 7 - n;
            if zone[8] == 0 then z == 0
            else
              && zone[8] * s in blocks && blocks[zone[8] * s].Indirect? && e / n < |blocks[zone[8] * s].zones| == n
              && var c := blocks[zone[8] * s].zones[e / n];
              if c == 0 then z == 0
              else
                && c * s in blocks && blocks[c * s].Indirect? && |blocks[c * s].zones| == n
                && z == blocks[c * s].zones[e % n])
  {
    var n := NrIndirects(g);
    hide Sound, Distinct, Typed, ViewOf;
    if 7 <= k < 7 + n {
      RootEntries(g, zone, blocks, Single);
    } else if 7 + n <= k < 7 + n + n * n {
      var e: nat := k - 7 - n;
      DivLess(e, n, n);
      RootEntries(g, zone, blocks, Double);
      ChildEntries(g, zone, blocks, e / n);
    }
  }

  lemma RootEntries(g: DeviceInfo, zone: seq<nat>, blocks: map<nat, Block>, r: Node)
    requires ValidTree(g, zone, blocks) && (r == Single || r == Double)
    ensures var z := zone[if r == Single then 7 else 8]; z != 0 ==> IsIndirect(g, blocks, z)
  {
    assert r in ViewOf(g, zone, blocks);
  }

  lemma ChildEntries(g: DeviceInfo, zone: seq<nat>, blocks: map<nat, Block>, i: nat)
    requires ValidTree(g, zone, blocks) && i < NrIndirects(g)
    ensures var z := Entry(g, blocks, zone[8], i); z != 0 ==> IsIndirect(g, blocks, z)
  {
    assert Child(i) in ViewOf(g, zone, blocks);
  }

  // ----- what one write to the map may change

  /** The interior places above a data place. */
  predicate Above(p: Node, m: Node) {
    match m
    case SingleEntry(_) => p == Single
    case ChildEntry(i, _) => p == Double || p == Child(i)
    case _ => false
  }

  /** The blocks that hold the indirect blocks of a tree. */
  ghost function IndirectBlocks(g: DeviceInfo, v: View): set<nat> {
    set m | m in v && m.Interior() && v[m] != NO_ZONE :: ToBlock(g, v[m])
  }

  /** Blocks other than those in `touched` keep their contents, or stay unknown. */
  ghost predicate Untouched(blocks: map<nat, Block>, blocks': map<nat, Block>, touched: set<nat>) {
    && (forall b | b in blocks && b !in touched :: b in blocks' && blocks'[b] == blocks[b])
    && (forall b | b in blocks' && b !in touched :: b in blocks)
  }

  /** From `v` to `v'` only places above `m` changed, and those only from empty to taken. */
  ghost predicate GrewAbove(v: View, v': View, m: Node) {
    && v'.Keys == v.Keys
    && (forall p | p in v && p != m && !Above(p, m) :: v'[p] == v[p])
    && (forall p | p in v && p != m && Above(p, m) && v[p] != NO_ZONE :: v'[p] == v[p])
  }

  /** The zones a growing tree took are exactly the newly marked ones. */
  ghost predicate Accounted(v: View, marks: set<nat>, v': View, marks': set<nat>, given: nat) {
    && marks' == marks + (TreeZones(v') - TreeZones(v) - {given})
    && (TreeZones(v') - TreeZones(v) - {given}) !! marks
  }

  /** Place `m`, empty before, holds the fresh zone `v'[m]`. */
  ghost predicate TookFresh(v: View, marks: set<nat>, v': View, marks': set<nat>, m: Node) {
    && m in v && m in v' && v[m] == NO_ZONE && v'[m] != NO_ZONE
    && v' == v[m := v'[m]]
    && v'[m] !in marks
    && marks' == marks + {v'[m]}
  }

  /** Place `m` was taken already, or takes a fresh zone now. */
  ghost predicate Opened(v: View, marks: set<nat>, v': View, marks': set<nat>, m: Node) {
    || (m in v && v[m] != NO_ZONE && v' == v && marks' == marks)
    || TookFresh(v, marks, v', marks', m)
  }

  lemma OpenedZones(v: View, marks: set<nat>, v': View, marks': set<nat>, p: Node)
    requires Opened(v, marks, v', marks', p) || (v' == v && marks' == marks)
    requires TreeZones(v) <= marks && Distinct(v)
    ensures marks <= marks' && TreeZones(v') == TreeZones(v) + (marks' - marks)
    ensures v'.Keys == v.Keys && Distinct(v')
    ensures forall x | x in v && (x != p || v[x] != NO_ZONE) :: v'[x] == v[x]
  {
    if v' != v {
      TookFreshZones(v, marks, v', marks', p);
      assert v'[p] !in TreeZones(v);
      forall a | a in v && v[a] != NO_ZONE
        ensures v[a] != v'[p]
      {
        assert v[a] in TreeZones(v);
      }
    }
  }

  /** Opening the places above `m` one after the other, and then writing `m` itself. */
  lemma OpenedThenWritten(v: View, marks: set<nat>, v1: View, marks1: set<nat>, v2: View, marks2: set<nat>, p: Node,
        q: Node, m: Node, z: nat)
    requires Opened(v, marks, v1, marks1, p) || (v1 == v && marks1 == marks)
    requires Opened(v1, marks1, v2, marks2, q) || (v2 == v1 && marks2 == marks1)
    requires Above(p, m) && Above(q, m) && m in v
    requires TreeZones(v) <= marks && z in marks && z != NO_ZONE && Distinct(v)
    ensures GrewAbove(v, v2[m := z], m) && Accounted(v, marks, v2[m := z], marks2, z)
    ensures GrewAbove(v, v2, m) && Accounted(v, marks, v2, marks2, z)
    ensures v2.Keys == v.Keys && v2[m] == v[m]
    ensures TreeZones(v2) == TreeZones(v) + (marks2 - marks)
  {
    OpenedZones(v, marks, v1, marks1, p);
    OpenedZones(v1, marks1, v2, marks2, q);
    hide Opened, TookFresh, Accounted, TreeZones, Distinct, GrewAbove;
    OpenedGrew(v, v1, v2, p, q, m, z);
    WrittenZones(v, marks, v2, marks2, m, z);
  }

  lemma OpenedGrew(v: View, v1: View, v2: View, p: Node, q: Node, m: Node, z: nat)
    requires v1.Keys == v.Keys && v2.Keys == v.Keys
    requires forall x | x in v && (x != p || v[x] != NO_ZONE) :: v1[x] == v[x]
    requires forall x | x in v && (x != q || v1[x] != NO_ZONE) :: v2[x] == v1[x]
    requires Above(p, m) && Above(q, m) && m in v
    ensures v2[m] == v[m] && GrewAbove(v, v2[m := z], m) && GrewAbove(v, v2, m)
  {
  }

  lemma WrittenZones(v: View, marks: set<nat>, v': View, marks': set<nat>, m: Node, z: nat)
    requires TreeZones(v) <= marks <= marks' && TreeZones(v') == TreeZones(v) + (marks' - marks)
    requires m in v && v'.Keys == v.Keys && v'[m] == v[m] && Distinct(v')
    requires z in marks && z != NO_ZONE
    ensures Accounted(v, marks, v'[m := z], marks', z)
    ensures Accounted(v, marks, v', marks', z)
  {
    ReplacedZones(v', m, z);
    assert v[m] == NO_ZONE || v[m] in TreeZones(v);
    WrittenAccounted(TreeZones(v), marks, marks', TreeZones(v'), v[m], z);
  }

  lemma WrittenAccounted(t: set<nat>, marks: set<nat>, marks': set<nat>, t': set<nat>, y: nat, z: nat)
    requires t <= marks <= marks' && t' == t + (marks' - marks)
    requires z in marks
    ensures (t' - {y} + {z}) - t - {z} == (marks' - marks) - {y}
    ensures t' - t - {z} == marks' - marks
  {
  }

  lemma ReplacedZones(v: View, m: Node, z: nat)
    requires m in v && z != NO_ZONE && Distinct(v)
    ensures TreeZones(v[m := z]) == TreeZones(v) - {v[m]} + {z}
  {
    var v' := v[m := z];
    assert v'[m] == z;
    forall y | y in TreeZones(v) && y != v[m]
      ensures y in TreeZones(v')
    {
      var p :| p in v && v[p] == y;
      assert v'[p] == y;
    }
  }

  lemma TookFreshZones(v: View, marks: set<nat>, v': View, marks': set<nat>, m: Node)
    requires TookFresh(v, marks, v', marks', m)
    requires TreeZones(v) <= marks
    ensures TreeZones(v') == TreeZones(v) + {v'[m]}
  {
    forall z | z in TreeZones(v)
      ensures z in TreeZones(v')
    {
      var p :| p in v && v[p] == z;
      assert v'[p] == z;
    }
  }

  /** The block of every interior place is an indirect block. */
  lemma InteriorIndirect(g: DeviceInfo, zone: seq<nat>, blocks: map<nat, Block>, m: Node)
    requires ValidTree(g, zone, blocks) && m in Nodes(NrIndirects(g)) && m.Interior()
    requires ZoneAt(g, zone, blocks, m) != NO_ZONE
    ensures IsIndirect(g, blocks, ZoneAt(g, zone, blocks, m))
    ensures ToBlock(g, ZoneAt(g, zone, blocks, m)) in IndirectBlocks(g, ViewOf(g, zone, blocks))
  {
    assert ViewOf(g, zone, blocks)[m] == ZoneAt(g, zone, blocks, m);
  }

  ghost predicate FreshStep(g: DeviceInfo, zone: seq<nat>, blocks: map<nat, Block>, zone': seq<nat>,
        blocks': map<nat, Block>, marks: set<nat>, m: Node, z: nat) {
    && |zone| == V2_NR_TZONES
    && ValidTree(g, zone', blocks')
    && var v, v' := ViewOf(g, zone, blocks), ViewOf(g, zone', blocks');
    && TookFresh(v, marks, v', marks + {z}, m)
    && TreeZones(v') == TreeZones(v) + {z}
    && Untouched(blocks, blocks', IndirectBlocks(g, v'))
  }

  lemma FreshStepOwned(g: DeviceInfo, zone: seq<nat>, blocks: map<nat, Block>, zone': seq<nat>, blocks': map<nat,
        Block>, marks: set<nat>, m: Node, z: nat)
    requires FreshStep(g, zone, blocks, zone', blocks', marks, m, z)
    requires TreeZones(ViewOf(g, zone, blocks)) <= marks
    ensures ValidTree(g, zone', blocks') && TreeZones(ViewOf(g, zone', blocks')) <= marks + {z}
  {
  }

  lemma RootStep(g: DeviceInfo, zone: seq<nat>, blocks: map<nat, Block>, marks: set<nat>, r: Node, z: nat)
    requires ValidTree(g, zone, blocks)
    requires r == Single || r == Double
    requires ZoneAt(g, zone, blocks, r) == NO_ZONE
    requires IsDataZone(g, z) && z !in marks && TreeZones(ViewOf(g, zone, blocks)) <= marks
    ensures
      FreshStep(g, zone, blocks,
                zone[if r == Single then V2_NR_DZONES else V2_NR_DZONES + 1 := z],
                blocks[ToBlock(g, z) := ZeroOf(INDIRECT_BLOCK, g.blocksize)], marks, r, z)
  {
    hide Sound, Distinct, Typed, TreeZones, IndirectBlocks, ToBlock;
    var zone' := zone[if r == Single then V2_NR_DZONES else V2_NR_DZONES + 1 := z];
    var blocks' := blocks[ToBlock(g, z) := ZeroOf(INDIRECT_BLOCK, g.blocksize)];
    AttachRoot(g, zone, blocks, r, z);
    EntriesFrame(g, blocks, blocks', z);
    GrowValid(g, zone, blocks, zone', blocks', r, z);
    InteriorIndirect(g, zone', blocks', r);
    TookFreshZones(ViewOf(g, zone, blocks), marks, ViewOf(g, zone', blocks'), marks + {z}, r);
  }

  lemma ChildStep(g: DeviceInfo, zone: seq<nat>, blocks: map<nat, Block>, marks: set<nat>, i: nat, z: nat)
    requires ValidTree(g, zone, blocks)
    requires i < NrIndirects(g)
    requires ZoneAt(g, zone, blocks, Double) != NO_ZONE && ZoneAt(g, zone, blocks, Child(i)) == NO_ZONE
    requires IsDataZone(g, z) && z !in marks && TreeZones(ViewOf(g, zone, blocks)) <= marks
    ensures IsIndirect(g, blocks, ZoneAt(g, zone, blocks, Double))
    ensures
      FreshStep(g, zone, blocks, zone,
                WithEntry(g, blocks, ZoneAt(g, zone, blocks, Double), i, z)
                  [ToBlock(g, z) := ZeroOf(INDIRECT_BLOCK, g.blocksize)], marks, Child(i), z)
  {
    hide Sound, Distinct, Typed, TreeZones, IndirectBlocks, ToBlock;
    InteriorIndirect(g, zone, blocks, Double);
    var d := ZoneAt(g, zone, blocks, Double);
    var blocks1 := WithEntry(g, blocks, d, i, z);
    var blocks2 := blocks1[ToBlock(g, z) := ZeroOf(INDIRECT_BLOCK, g.blocksize)];
    AttachChild(g, zone, blocks, i, z);
    WithEntryAt(g, blocks, d, i, z);
    EntriesFrame(g, blocks1, blocks2, z);
    GrowValid(g, zone, blocks, zone, blocks2, Child(i), z);
    assert ViewOf(g, zone, blocks2)[Child(i)] == z;
    InteriorIndirect(g, zone, blocks2, Child(i));
    InteriorIndirect(g, zone, blocks2, Double);
    TookFreshZones(ViewOf(g, zone, blocks), marks, ViewOf(g, zone, blocks2), marks + {z}, Child(i));
  }

  // ----- putting the steps of one write together

  /** The outcome of writing zone `z` at place `m`: interior places above `m` may have been
      taken, and all else is as it was. */
  ghost predicate Mapped(g: DeviceInfo, v: View, blocks: map<nat, Block>, marks: set<nat>, v': View,
        blocks': map<nat, Block>, marks': set<nat>, m: Node, z: nat, err: Error) {
    && GrewAbove(v, v', m)
    && m in v && v'[m] == (if err == OK then z else v[m])
    && Accounted(v, marks, v', marks', z)
    && (err != OK ==> z !in TreeZones(v'))
    && Untouched(blocks, blocks', IndirectBlocks(g, v'))
  }

  lemma IndirectBlocksGrow(g: DeviceInfo, v: View, v': View)
    requires forall x | x in v && x.Interior() && v[x] != NO_ZONE :: x in v' && v'[x] == v[x]
    ensures IndirectBlocks(g, v) <= IndirectBlocks(g, v')
  {
  }

  lemma UntouchedTrans(b0: map<nat, Block>, b1: map<nat, Block>, b2: map<nat, Block>, s: set<nat>, t: set<nat>)
    requires Untouched(b0, b1, s) && Untouched(b1, b2, t) && s <= t
    ensures Untouched(b0, b2, t)
  {
  }

  /** The tree `zone'`, `blocks'` is `zone`, `blocks` with place `p` opened, or not at all
      changed. */
  ghost predicate Step(g: DeviceInfo, zone: seq<nat>, blocks: map<nat, Block>, marks: set<nat>, zone': seq<nat>,
        blocks': map<nat, Block>, marks': set<nat>, p: Node) {
    || (zone' == zone && blocks' == blocks && marks' == marks)
    || (exists z :: marks' == marks + {z} && FreshStep(g, zone, blocks, zone', blocks', marks, p, z))
  }

  lemma StepOpened(g: DeviceInfo, zone: seq<nat>, blocks: map<nat, Block>, marks: set<nat>, zone': seq<nat>,
        blocks': map<nat, Block>, marks': set<nat>, p: Node)
    requires Step(g, zone, blocks, marks, zone', blocks', marks', p)
    requires ValidTree(g, zone, blocks) && TreeZones(ViewOf(g, zone, blocks)) <= marks
    ensures |zone'| == V2_NR_TZONES
    ensures
      var v, v' := ViewOf(g, zone, blocks), ViewOf(g, zone', blocks');
      && ((v' == v && marks' == marks) || Opened(v, marks, v', marks', p))
      && Untouched(blocks, blocks', IndirectBlocks(g, v'))
      && IndirectBlocks(g, v) <= IndirectBlocks(g, v')
  {
    var v, v' := ViewOf(g, zone, blocks), ViewOf(g, zone', blocks');
    IndirectBlocksGrow(g, v, v');
  }

  lemma ViewFacts(g: DeviceInfo, zone: seq<nat>, blocks: map<nat, Block>)
    requires ValidTree(g, zone, blocks)
    ensures |zone| == V2_NR_TZONES
    ensures ViewOf(g, zone, blocks).Keys == Nodes(NrIndirects(g)) && Distinct(ViewOf(g, zone, blocks))
  {
  }

  lemma DataPlace(p: Node, m: Node)
    requires Above(p, m)
    ensures !m.Interior()
  {
  }

  /** Two openings above `m`, then the entry itself; or the two openings alone. */
  lemma StepsMapped(g: DeviceInfo, zone: seq<nat>, blocks: map<nat, Block>, marks: set<nat>, zone1: seq<nat>,
        blocks1: map<nat, Block>, marks1: set<nat>, zone2: seq<nat>, blocks2: map<nat, Block>, marks2: set<nat>,
        p: Node, q: Node, m: Node, z: nat)
    requires Step(g, zone, blocks, marks, zone1, blocks1, marks1, p)
    requires ValidTree(g, zone, blocks) && TreeZones(ViewOf(g, zone, blocks)) <= marks
    requires Step(g, zone1, blocks1, marks1, zone2, blocks2, marks2, q)
    requires ValidTree(g, zone1, blocks1) && TreeZones(ViewOf(g, zone1, blocks1)) <= marks1
    requires Above(p, m) && Above(q, m) && m in Nodes(NrIndirects(g))
    requires z in marks && z != NO_ZONE && z !in TreeZones(ViewOf(g, zone, blocks))
    ensures |zone2| == V2_NR_TZONES
    ensures Mapped(g, ViewOf(g, zone, blocks), blocks, marks, ViewOf(g, zone2, blocks2), blocks2, marks2, m, z, ENOSPC)
    ensures
      forall blocks3 | Untouched(blocks2, blocks3, IndirectBlocks(g, ViewOf(g, zone2, blocks2))) ::
        Mapped(g, ViewOf(g, zone, blocks), blocks, marks, ViewOf(g, zone2, blocks2)[m := z], blocks3, marks2, m, z, OK)
  {
    hide Step, Opened, ViewOf, ValidTree, IndirectBlocks, TreeZones, GrewAbove, Accounted, Above;
    StepOpened(g, zone, blocks, marks, zone1, blocks1, marks1, p);
    StepOpened(g, zone1, blocks1, marks1, zone2, blocks2, marks2, q);
    ViewFacts(g, zone, blocks);
    var v, v1, v2 := ViewOf(g, zone, blocks), ViewOf(g, zone1, blocks1), ViewOf(g, zone2, blocks2);
    OpenedThenWritten(v, marks, v1, marks1, v2, marks2, p, q, m, z);
    UntouchedTrans(blocks, blocks1, blocks2, IndirectBlocks(g, v1), IndirectBlocks(g, v2));
    DataPlace(p, m);
    IndirectBlocksGrow(g, v2, v2[m := z]);
    forall blocks3 | Untouched(blocks2, blocks3, IndirectBlocks(g, v2))
      ensures Mapped(g, v, blocks, marks, v2[m := z], blocks3, marks2, m, z, OK)
    {
      UntouchedTrans(blocks, blocks2, blocks3, IndirectBlocks(g, v2), IndirectBlocks(g, v2[m := z]));
    }
  }

  /** Writing the entry itself. */
  lemma EntryWritten(g: DeviceInfo, zone: seq<nat>, blocks: map<nat, Block>, m: Node, z: nat)
    requires ValidTree(g, zone, blocks)
    requires m in Nodes(NrIndirects(g)) && (m.SingleEntry? || m.ChildEntry?)
    requires ZoneAt(g, zone, blocks, Parent(m)) != NO_ZONE
    requires IsDataZone(g, z) && z !in TreeZones(ViewOf(g, zone, blocks))
    ensures IsIndirect(g, blocks, ZoneAt(g, zone, blocks, Parent(m)))
    ensures
      var blocks' := WithEntry(g, blocks, ZoneAt(g, zone, blocks, Parent(m)), Index(m), z);
      && ValidTree(g, zone, blocks')
      && ViewOf(g, zone, blocks') == ViewOf(g, zone, blocks)[m := z]
      && Untouched(blocks, blocks', IndirectBlocks(g, ViewOf(g, zone, blocks)))
  {
    hide ValidTree, ViewOf, ZoneAt, IndirectBlocks, TreeZones, ToBlock;
    ViewFacts(g, zone, blocks);
    SetEntry(g, zone, blocks, m, z);
    InteriorIndirect(g, zone, blocks, Parent(m));
    var p := ZoneAt(g, zone, blocks, Parent(m));
    WithEntryAt(g, blocks, p, Index(m), z);
    GrowValid(g, zone, blocks, zone, WithEntry(g, blocks, p, Index(m), z), m, z);
  }

  // ----- what a write to the map means for readers

  /** After a successful write of zone `z` for a position, the position reads back from `z`,
      and every position of any other zone reads as before. */
  lemma MapRoundTrip(g: DeviceInfo, zone: seq<nat>, blocks: map<nat, Block>, marks: set<nat>, zone': seq<nat>,
        blocks': map<nat, Block>, marks': set<nat>, position: nat, z: nat)
    requires |zone| == |zone'| == V2_NR_TZONES && 0 < NrIndirects(g) && z != NO_ZONE
    requires RelZone(g, position) < MaxZones(g)
    requires Mapped(g, ViewOf(g, zone, blocks), blocks, marks, ViewOf(g, zone', blocks'), blocks', marks',
                    DataNode(g, RelZone(g, position)), z, OK)
    ensures
      var b := BlockAt(g, zone', blocks', position);
      var file := RelZone(g, position) * Pow2(g.scale) + b % Pow2(g.scale);
      b / Pow2(g.scale) == z && file * g.blocksize <= position < file * g.blocksize + g.blocksize
    ensures forall p: nat | RelZone(g, p) < MaxZones(g) && RelZone(g, p) != RelZone(g, position) ::
              BlockAt(g, zone', blocks', p) == BlockAt(g, zone, blocks, p)
  {
    var v, v' := ViewOf(g, zone, blocks), ViewOf(g, zone', blocks');
    var m := DataNode(g, RelZone(g, position));
    DataNodeValid(g, RelZone(g, position));
    assert v'[m] == ZoneAt(g, zone', blocks', m);
    BlockAtMeans(g, zone', blocks', position);
    forall p: nat | RelZone(g, p) < MaxZones(g) && RelZone(g, p) != RelZone(g, position)
      ensures BlockAt(g, zone', blocks', p) == BlockAt(g, zone, blocks, p)
    {
      OtherZoneUnchanged(g, v, v', RelZone(g, position), RelZone(g, p));
      var q := DataNode(g, RelZone(g, p));
      assert v[q] == ZoneAt(g, zone, blocks, q) && v'[q] == ZoneAt(g, zone', blocks', q);
    }
  }

  lemma OtherZoneUnchanged(g: DeviceInfo, v: View, v': View, k: nat, j: nat)
    requires 0 < NrIndirects(g) && v.Keys == Nodes(NrIndirects(g))
    requires GrewAbove(v, v', DataNode(g, k)) && j != k && j < MaxZones(g)
    ensures DataNode(g, j) in v && v'[DataNode(g, j)] == v[DataNode(g, j)]
  {
    DataNodeValid(g, j);
    FileZoneInverse(g, k, Single);
    FileZoneInverse(g, j, Single);
    assert !Above(DataNode(g, j), DataNode(g, k));
  }

  /** The blocks of a data zone hold no indirect block. */
  lemma DataBlockApart(g: DeviceInfo, v: View, m: Node, off: nat)
    requires Distinct(v) && m in v && !m.Interior() && v[m] != NO_ZONE && off < Pow2(g.scale)
    ensures ToBlock(g, v[m]) + off !in IndirectBlocks(g, v)
  {
    forall x | x in v && x.Interior() && v[x] != NO_ZONE
      ensures ToBlock(g, v[x]) != ToBlock(g, v[m]) + off
    {
      SameBlock(g, v[x], 0, v[m], off);
    }
  }

  lemma SameBlock(g: DeviceInfo, y: nat, a: nat, z: nat, b: nat)
    requires a < Pow2(g.scale) && b < Pow2(g.scale)
    ensures ToBlock(g, y) + a == ToBlock(g, z) + b <==> y == z && a == b
  {
    if ToBlock(g, y) + a == ToBlock(g, z) + b {
      assert (y - z) * Pow2(g.scale) == b - a;
      MulSmall(y - z, Pow2(g.scale));
    }
  }

  lemma InteriorBlocks(g: DeviceInfo, v: View)
    ensures forall x | x in v && x.Interior() && v[x] != NO_ZONE :: ToBlock(g, v[x]) in IndirectBlocks(g, v)
  {
  }

  /** Blocks that hold no indirect block of the tree do not matter to it. */
  lemma DataFrame(g: DeviceInfo, zone: seq<nat>, blocks: map<nat, Block>, blocks': map<nat, Block>)
    requires ValidTree(g, zone, blocks)
    requires forall b | b in IndirectBlocks(g, ViewOf(g, zone, blocks)) ::
               b in blocks && b in blocks' && blocks'[b] == blocks[b]
    ensures ViewOf(g, zone, blocks') == ViewOf(g, zone, blocks) && ValidTree(g, zone, blocks')
  {
    hide ToBlock, IndirectBlocks, Distinct, Sound, ViewOf;
    InteriorBlocks(g, ViewOf(g, zone, blocks));
    SameView(g, zone, blocks, blocks');
  }

  lemma SameView(g: DeviceInfo, zone: seq<nat>, blocks: map<nat, Block>, blocks': map<nat, Block>)
    requires |zone| == V2_NR_TZONES
    requires
      var v := ViewOf(g, zone, blocks);
      forall x | x in v && x.Interior() && v[x] != NO_ZONE ::
        ToBlock(g, v[x]) in blocks && ToBlock(g, v[x]) in blocks'
        && blocks'[ToBlock(g, v[x])] == blocks[ToBlock(g, v[x])]
    ensures ViewOf(g, zone, blocks') == ViewOf(g, zone, blocks)
  {
    hide ToBlock;
    var v := ViewOf(g, zone, blocks);
    forall m | m in Nodes(NrIndirects(g))
      ensures ZoneAt(g, zone, blocks', m) == v[m]
    {
      assert Single in v && Double in v;
      if m.ChildEntry? {
        assert Child(m.i) in v;
      }
    }
  }

  // ----- a new block, end to end

  /** The outcome of `NewBlock`: the tree grew at most above and at place `m`, the newly
      marked zones are exactly the newly attached ones, and no block changed but those of
      indirect blocks and those in `extra`. */
  ghost predicate Grew(g: DeviceInfo, v: View, blocks: map<nat, Block>, marks: set<nat>, v': View, blocks': map<nat,
        Block>, marks': set<nat>, m: Node, extra: set<nat>) {
    && GrewAbove(v, v', m)
    && m in v && (v[m] != NO_ZONE ==> v'[m] == v[m])
    && Accounted(v, marks, v', marks', NO_ZONE)
    && Untouched(blocks, blocks', IndirectBlocks(g, v') + extra)
  }

  /** A zone allocated and entered in the map, or given back after a failure. */
  lemma MappedGrew(g: DeviceInfo, v: View, blocks: map<nat, Block>, marks: set<nat>, v': View, blocks': map<nat,
        Block>, marks': set<nat>, m: Node, z: nat, err: Error, extra: set<nat>)
    requires Mapped(g, v, blocks, marks + {z}, v', blocks', marks', m, z, err)
    requires z !in marks && z != NO_ZONE && v[m] == NO_ZONE && TreeZones(v) <= marks
    requires TreeZones(v') <= marks'
    ensures
      var marks'' := if err == OK then marks' else marks' - {z};
      && Grew(g, v, blocks, marks, v', blocks', marks'', m, extra)
      && TreeZones(v') <= marks''
      && z in marks'
  {
    if err == OK {
      assert v'[m] in TreeZones(v');
    }
    assert IndirectBlocks(g, v') <= IndirectBlocks(g, v') + extra;
  }

  lemma EmptyPlace(g: DeviceInfo, zone: seq<nat>, blocks: map<nat, Block>, position: nat)
    requires |zone| == V2_NR_TZONES && 0 < NrIndirects(g) && RelZone(g, position) < MaxZones(g)
    ensures
      var m := DataNode(g, RelZone(g, position));
      && m in Nodes(NrIndirects(g))
      && ViewOf(g, zone, blocks)[m] == ZoneAt(g, zone, blocks, m)
      && (BlockAt(g, zone, blocks, position) == NO_BLOCK <==> ViewOf(g, zone, blocks)[m] == NO_ZONE)
  {
    DataNodeValid(g, RelZone(g, position));
    var z := ZoneAt(g, zone, blocks, DataNode(g, RelZone(g, position)));
    MulGrows(z, Pow2(g.scale));
  }

  /** The block within its zone, as `NewBlock` computes it. */
  lemma BlockInZoneAgain(g: DeviceInfo, position: nat)
    requires 0 < g.blocksize
    ensures 0 < g.blocksize * Pow2(g.scale)
    ensures Quot(Rem(position, g.blocksize * Pow2(g.scale)), g.blocksize) == BlockInZone(g, position)
  {
    BlocksOfZone(position, g.blocksize, Pow2(g.scale));
  }

  /** Filling a data block of a tree leaves the tree alone. */
  lemma DataBlockWritten(g: DeviceInfo, zone: seq<nat>, blocks: map<nat, Block>, blocks': map<nat, Block>,
        position: nat)
    requires ValidTree(g, zone, blocks) && 0 < NrIndirects(g) && RelZone(g, position) < MaxZones(g)
    requires BlockAt(g, zone, blocks, position) != NO_BLOCK
    requires Untouched(blocks, blocks', {BlockAt(g, zone, blocks, position)})
    ensures ViewOf(g, zone, blocks') == ViewOf(g, zone, blocks) && ValidTree(g, zone, blocks')
    ensures BlockAt(g, zone, blocks', position) == BlockAt(g, zone, blocks, position)
    ensures BlockAt(g, zone, blocks, position) !in IndirectBlocks(g, ViewOf(g, zone, blocks))
  {
    var v := ViewOf(g, zone, blocks);
    var m := DataNode(g, RelZone(g, position));
    DataNodeValid(g, RelZone(g, position));
    EmptyPlace(g, zone, blocks, position);
    DataBlockApart(g, v, m, BlockInZone(g, position));
    forall b | b in IndirectBlocks(g, v)
      ensures b in blocks && b in blocks' && blocks'[b] == blocks[b]
    {
      var x :| x in v && x.Interior() && v[x] != NO_ZONE && b == ToBlock(g, v[x]);
      InteriorIndirect(g, zone, blocks, x);
    }
    DataFrame(g, zone, blocks, blocks');
    EmptyPlace(g, zone, blocks', position);
  }

  lemma GrewThenFilled(g: DeviceInfo, v: View, blocks: map<nat, Block>, marks: set<nat>, v': View, blocks': map<nat,
        Block>, marks': set<nat>, blocks'': map<nat, Block>, m: Node, b: nat, extra: set<nat>)
    requires Grew(g, v, blocks, marks, v', blocks', marks', m, extra) && extra <= {b}
    requires Untouched(blocks', blocks'', {b})
    ensures Grew(g, v, blocks, marks, v', blocks'', marks', m, {b})
  {
  }

  lemma GrewNothing(g: DeviceInfo, v: View, blocks: map<nat, Block>, marks: set<nat>, m: Node)
    requires m in v
    ensures Grew(g, v, blocks, marks, v, blocks, marks, m, {})
  {
  }
}
