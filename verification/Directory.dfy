/** Directories on the disk: one scan over the slots of a directory's blocks serves lookup,
    link, unlink and the test for emptiness. */
module Directory {
  import opened Common
  import opened Disk
  import opened Bitmaps
  import opened ZoneTree
  import opened ZoneMap
  import opened FileBlocks
  import opened FileData
  import opened ZoneNeeds
  import opened Names
  import opened DirMap

  const DIR_ENTRY_SIZE: nat := 64

  /** The slots of a block. */
  function PerBlock(g: DeviceInfo): nat {
    g.blocksize / 64
  }

  /** The `k`th block of the directory is there and holds entries. */
  ghost predicate HasDir(g: DeviceInfo, v: View, blocks: map<nat, Block>, k: nat) {
    && HasZone(g, v, k)
    && FileBlock(g, v, k) in blocks
    && blocks[FileBlock(g, v, k)].Dirents?
    && |blocks[FileBlock(g, v, k)].entries| == PerBlock(g)
  }

  ghost function DirBlock(g: DeviceInfo, v: View, blocks: map<nat, Block>, k: nat): seq<Dirent>
    requires HasDir(g, v, blocks, k)
  {
    blocks[FileBlock(g, v, k)].entries
  }

  /** The blocks of the first `n` slots are there. */
  ghost predicate DirDense(g: DeviceInfo, v: View, blocks: map<nat, Block>, n: nat) {
    forall k: nat | k * PerBlock(g) < n :: HasDir(g, v, blocks, k)
  }

  lemma DirDenseAt(g: DeviceInfo, v: View, blocks: map<nat, Block>, n: nat, s: nat)
    requires 0 < PerBlock(g) && DirDense(g, v, blocks, n) && s < n
    ensures HasDir(g, v, blocks, Quot(s, PerBlock(g)))
  {
    DivMod(s, PerBlock(g));
  }

  ghost function SlotsOf(g: DeviceInfo, v: View, blocks: map<nat, Block>, n: nat): (slots: Slots)
    requires 0 < PerBlock(g) && DirDense(g, v, blocks, n)
    ensures |slots| == n
  {
    seq(n, s requires 0 <= s < n =>
      DirDenseAt(g, v, blocks, n, s);
      DirBlock(g, v, blocks, Quot(s, PerBlock(g)))[Rem(s, PerBlock(g))])
  }

  /** Only block `k` of the directory changed, and it now holds `entries`. */
  ghost predicate OneDirBlock(g: DeviceInfo, v: View, blocks: map<nat, Block>, v': View, blocks': map<nat, Block>,
        k: nat, entries: seq<Dirent>) {
    && HasDir(g, v', blocks', k) && DirBlock(g, v', blocks', k) == entries
    && forall j: nat | j != k && HasDir(g, v, blocks, j) ::
         HasDir(g, v', blocks', j) && DirBlock(g, v', blocks', j) == DirBlock(g, v, blocks, j)
  }

  /** Where slot `s` lies relative to block `k`. */
  lemma SlotPlace(per: nat, k: nat, i: nat, s: nat)
    requires 0 < per && i < per
    ensures Quot(k * per + i, per) == k && Rem(k * per + i, per) == i
    ensures Quot(s, per) == k ==> s == k * per + Rem(s, per)
    ensures Quot(s, per) < k ==> s < k * per
    ensures Quot(s, per) > k ==> k * per + per <= s
  {
    DivModUnique(k * per + i, per, k, i);
    DivMod(s, per);
    MulOrder(Quot(s, per), k, per);
    MulOrder(k, Quot(s, per), per);
  }

  /** Storing entry `d` in slot `i` of block `k`, which is slot `s` of the directory or the
      first one past its end. */
  lemma SlotStored(g: DeviceInfo, v: View, blocks: map<nat, Block>, v': View, blocks': map<nat, Block>, n: nat,
        s: nat, k: nat, i: nat, d: Dirent, entries: seq<Dirent>)
    requires 0 < PerBlock(g) == |entries| && i < PerBlock(g)
    requires s == k * PerBlock(g) + i <= n && DirDense(g, v, blocks, n)
    requires OneDirBlock(g, v, blocks, v', blocks', k, entries[i := d])
    requires k * PerBlock(g) < n ==> HasDir(g, v, blocks, k) && entries == DirBlock(g, v, blocks, k)
    ensures
      var n' := if s < n then n else s + 1;
      && DirDense(g, v', blocks', n')
      && SlotsOf(g, v', blocks', n') ==
         if s < n then SlotsOf(g, v, blocks, n)[s := d] else SlotsOf(g, v, blocks, n) + [d]
  {
    var per := PerBlock(g);
    var n' := if s < n then n else s + 1;
    SlotPlace(per, k, i, 0);
    forall j: nat | j * per < n'
      ensures HasDir(g, v', blocks', j)
    {
      if j != k && n <= j * per {
        MulOrder(k, j, per);
        MulOrder(j, k, per);
      }
    }
    var t := SlotsOf(g, v, blocks, n);
    var t' := SlotsOf(g, v', blocks', n');
    var u := if s < n then t[s := d] else t + [d];
    assert |u| == n';
    forall x: nat | x < n'
      ensures t'[x] == u[x]
    {
      SlotPlace(per, k, i, x);
      DirDenseAt(g, v', blocks', n', x);
      if x < n {
        DirDenseAt(g, v, blocks, n, x);
      }
    }
  }

  /** What a directory's blocks must look like: whole slots. */
  predicate DirShape(g: DeviceInfo) {
    0 < PerBlock(g) && g.blocksize == 64 * PerBlock(g)
  }

  /** A directory in use. */
  ghost predicate ValidDir(rip: CacheInode, cache: BlockCache)
    reads rip`zone, rip`size, cache, rip.bitmap
  {
    && rip.Owned(cache)
    && DirShape(rip.devinfo)
    && rip.size % DIR_ENTRY_SIZE == 0
    && rip.size <= MaxBytes(rip.devinfo) && rip.size <= 0x7FFF_FFFF
    && DirDense(rip.devinfo, rip.View(cache), cache.blocks, rip.size / DIR_ENTRY_SIZE)
  }

  ghost function DirSlots(rip: CacheInode, cache: BlockCache): (slots: Slots)
    requires ValidDir(rip, cache)
    reads rip`zone, rip`size, cache, rip.bitmap
    ensures |slots| == rip.size / DIR_ENTRY_SIZE
  {
    SlotsOf(rip.devinfo, rip.View(cache), cache.blocks, rip.size / DIR_ENTRY_SIZE)
  }

  /** Slot `s` of a directory stands at byte `64 * s` of it, in the block that `ReadMap` finds
      there. */
  lemma SlotMeans(rip: CacheInode, cache: BlockCache, s: nat)
    requires ValidDir(rip, cache) && s < |DirSlots(rip, cache)|
    ensures
      var g := rip.devinfo;
      var b := BlockAt(g, rip.zone, cache.blocks, 64 * s);
      && b != NO_BLOCK && b in cache.blocks && cache.blocks[b].Dirents?
      && 0 < g.blocksize / 64 == |cache.blocks[b].entries|
      && DirSlots(rip, cache)[s] == cache.blocks[b].entries[s % (g.blocksize / 64)]
  {
    var g := rip.devinfo;
    DirDenseAt(g, rip.View(cache), cache.blocks, |DirSlots(rip, cache)|, s);
    DivMod(s, PerBlock(g));
    SlotBlock(PerBlock(g), Quot(s, PerBlock(g)), Rem(s, PerBlock(g)), g.blocksize);
    PositionBelow(g, 64 * s);
    PositionBlock(g, rip.zone, cache.blocks, 64 * s);
  }

  /** Whether the search stops at a slot. */
  method Matches(op: DirOp, path: seq<byte>, dp: Dirent) returns (match': bool)
    ensures match' <==> op != ENTER && Stops(op, path, dp)
  {
    match' := false;
    if op != ENTER && dp.inum != 0 {
      if op == IS_EMPTY {
        var dot := HasName(dp.name, DOT);
        var dotdot := HasName(dp.name, DOTDOT);
        if !dot && !dotdot {
          match' := true;
        }
      } else {
        var named := HasName(dp.name, path);
        if named {
          match' := true;
        }
      }
    }
  }

  /** The scan of one block, from slot number `base` on. `i` is where it ended; `hit` tells
      that `ENTER` can use that slot, `found` that another operation stopped there. */
  method ScanBlock(dirarr: seq<Dirent>, base: nat, oldSlots: nat, path: seq<byte>, op: DirOp)
        returns (i: nat, found: bool, hit: bool)
    ensures i <= |dirarr|
    ensures base + i <= oldSlots || i == 0
    ensures forall j | 0 <= j < i :: !Stops(op, path, dirarr[j])
    ensures found <==> op != ENTER && i < |dirarr| && base + i < oldSlots && Stops(op, path, dirarr[i])
    ensures hit <==> op == ENTER && i < |dirarr| && (base + i >= oldSlots || Stops(op, path, dirarr[i]))
    ensures !found && !hit ==> i == |dirarr| || oldSlots <= base + i
  {
    found, hit := false, false;
    i := 0;
    while i < |dirarr|
      invariant i <= |dirarr| && (base + i <= oldSlots || i == 0)
      invariant forall j | 0 <= j < i :: !Stops(op, path, dirarr[j])
      invariant !found && !hit
    {
      if base + i + 1 > oldSlots {
        if op == ENTER {
          hit := true;
        }
        break;
      }
      found := Matches(op, path, dirarr[i]);
      if found {
        break;
      }
      if op == ENTER && dirarr[i].inum == 0 {
        hit := true;
        break;
      }
      i := i + 1;
    }
  }

  /** Block `k` of the directory, as the outer loop fetches it. */
  method FetchDir(rip: CacheInode, pos: nat, cache: BlockCache, ghost k: nat) returns (b: nat, dirarr: seq<Dirent>)
    requires ValidDir(rip, cache) && pos < rip.size && pos == 64 * (k * PerBlock(rip.devinfo))
    modifies cache
    ensures cache.blocks == old(cache.blocks)
    ensures HasDir(rip.devinfo, rip.View(cache), cache.blocks, k)
    ensures b == FileBlock(rip.devinfo, rip.View(cache), k)
    ensures dirarr == DirBlock(rip.devinfo, rip.View(cache), cache.blocks, k)
  {
    var g := rip.devinfo;
    BlockStart(PerBlock(g), k, g.blocksize);
    PositionBelow(g, pos);
    PositionBlock(g, rip.zone, cache.blocks, pos);
    assert HasDir(g, rip.View(cache), cache.blocks, k);
    b := ReadMap(rip, pos, cache);
    cache.GetBlock(b, DIRECTORY_BLOCK, NORMAL, g.blocksize);
    dirarr := cache.blocks[b].entries;
  }

  lemma BlockStart(per: nat, k: nat, blocksize: nat)
    requires blocksize == 64 * per && 0 < per
    ensures 64 * (k * per) == k * blocksize
    ensures Quot(64 * (k * per), blocksize) == k
  {
    assert 64 * (k * per) == k * blocksize;
    DivModUnique(64 * (k * per), blocksize, k, 0);
  }

  /** The slots of a block are those of the directory from `base` on, as far as that goes. */
  ghost predicate SlicedAt(dirarr: seq<Dirent>, slots: Slots, base: nat) {
    forall i: nat | i < |dirarr| && base + i < |slots| :: dirarr[i] == slots[base + i]
  }

  /** The slots of one block within the directory. */
  lemma BlockSlots(g: DeviceInfo, v: View, blocks: map<nat, Block>, n: nat, k: nat)
    requires 0 < PerBlock(g) && DirDense(g, v, blocks, n) && HasDir(g, v, blocks, k)
    ensures |DirBlock(g, v, blocks, k)| == PerBlock(g)
    ensures SlicedAt(DirBlock(g, v, blocks, k), SlotsOf(g, v, blocks, n), k * PerBlock(g))
  {
    hide SlotsOf, DirDense, PerBlock;
    forall i: nat | i < PerBlock(g) && k * PerBlock(g) + i < n
      ensures DirBlock(g, v, blocks, k)[i] == SlotsOf(g, v, blocks, n)[k * PerBlock(g) + i]
    {
      BlockSlot(g, v, blocks, n, k, i, k * PerBlock(g) + i);
    }
  }

  lemma BlockSlot(g: DeviceInfo, v: View, blocks: map<nat, Block>, n: nat, k: nat, i: nat, s: nat)
    requires 0 < PerBlock(g) && DirDense(g, v, blocks, n) && HasDir(g, v, blocks, k)
    requires i < PerBlock(g) && s == k * PerBlock(g) + i < n
    ensures DirBlock(g, v, blocks, k)[i] == SlotsOf(g, v, blocks, n)[s]
  {
    SlotPlace(PerBlock(g), k, i, 0);
  }

  /** Slot `i` of block `k`, which is slot `s` of the directory, held by block `b`. */
  ghost predicate SlotIn(rip: CacheInode, cache: BlockCache, s: nat, k: nat, i: nat, b: nat)
    requires ValidDir(rip, cache)
    reads rip`zone, rip`size, cache, rip.bitmap
  {
    && i < PerBlock(rip.devinfo) && s == k * PerBlock(rip.devinfo) + i
    && HasDir(rip.devinfo, rip.View(cache), cache.blocks, k)
    && b == FileBlock(rip.devinfo, rip.View(cache), k)
  }

  lemma SlotHeld(rip: CacheInode, cache: BlockCache, s: nat, k: nat, i: nat, b: nat)
    requires ValidDir(rip, cache) && SlotIn(rip, cache, s, k, i, b) && s < |DirSlots(rip, cache)|
    ensures b in cache.blocks && cache.blocks[b].Dirents? && i < |cache.blocks[b].entries|
    ensures cache.blocks[b].entries[i] == DirSlots(rip, cache)[s]
  {
    hide Bitmap.Ready, Bitmap.Zones, ValidTree, TreeZones, ViewOf, DirDense;
    BlockSlot(rip.devinfo, rip.View(cache), cache.blocks, rip.size / DIR_ENTRY_SIZE, k, i, s);
  }

  /** The scan of block `k`, in terms of the slots of the directory. */
  method ScanDir(rip: CacheInode, pos: nat, newSlots: nat, path: seq<byte>, op: DirOp, cache: BlockCache,
        ghost k: nat) returns (b: nat, i: nat, found: bool, hit: bool, end: bool)
    requires ValidDir(rip, cache) && pos < rip.size && pos == 64 * newSlots && newSlots == k * PerBlock(rip.devinfo)
    modifies cache
    ensures cache.blocks == old(cache.blocks) && i <= PerBlock(rip.devinfo)
    ensures ValidDir(rip, cache) && DirSlots(rip, cache) == old(DirSlots(rip, cache))
    ensures
      var slots := DirSlots(rip, cache);
      && newSlots + i <= |slots|
      && (forall j | newSlots <= j < newSlots + i :: !Stops(op, path, slots[j]))
      && (found ==> op != ENTER && newSlots + i < |slots| && Stops(op, path, slots[newSlots + i]))
      && (hit ==> op == ENTER && (newSlots + i == |slots| || Stops(op, path, slots[newSlots + i])))
      && (found || hit ==> SlotIn(rip, cache, newSlots + i, k, i, b))
      && (!found && !hit ==> end == (i == PerBlock(rip.devinfo)) && (!end ==> op != ENTER && newSlots + i == |slots|))
  {
    var oldSlots := rip.size / DIR_ENTRY_SIZE;
    var dirarr;
    b, dirarr := FetchDir(rip, pos, cache, k);
    BlockOfDir(rip, cache, k);
    hide DirSlots, ValidDir, DirBlock, PerBlock, Stops, HasDir, FileBlock;
    i, found, hit := ScanBlock(dirarr, newSlots, oldSlots, path, op);
    end := i == |dirarr|;
    Scanned(dirarr, DirSlots(rip, cache), newSlots, i, path, op);
  }

  /** The slots of block `k` of a directory. */
  lemma BlockOfDir(rip: CacheInode, cache: BlockCache, k: nat)
    requires ValidDir(rip, cache) && HasDir(rip.devinfo, rip.View(cache), cache.blocks, k)
    ensures |DirBlock(rip.devinfo, rip.View(cache), cache.blocks, k)| == PerBlock(rip.devinfo)
    ensures |DirSlots(rip, cache)| == rip.size / DIR_ENTRY_SIZE
    ensures rip.size == 64 * |DirSlots(rip, cache)|
    ensures SlicedAt(DirBlock(rip.devinfo, rip.View(cache), cache.blocks, k), DirSlots(rip, cache),
                     k * PerBlock(rip.devinfo))
  {
    hide DirDense, HasDir, SlotsOf, DirBlock, SlicedAt;
    BlockSlots(rip.devinfo, rip.View(cache), cache.blocks, rip.size / DIR_ENTRY_SIZE, k);
  }

  lemma Scanned(dirarr: seq<Dirent>, slots: Slots, base: nat, i: nat, path: seq<byte>, op: DirOp)
    requires SlicedAt(dirarr, slots, base) && i <= |dirarr| && base + i <= |slots|
    requires forall j | 0 <= j < i :: !Stops(op, path, dirarr[j])
    ensures forall j | base <= j < base + i :: !Stops(op, path, slots[j])
    ensures i < |dirarr| && base + i < |slots| ==> slots[base + i] == dirarr[i]
  {
    forall j | base <= j < base + i
      ensures !Stops(op, path, slots[j])
    {
      assert dirarr[j - base] == slots[base + (j - base)];
    }
  }

  lemma DirSizes(rip: CacheInode, cache: BlockCache)
    requires ValidDir(rip, cache)
    ensures 0 < PerBlock(rip.devinfo) && rip.devinfo.blocksize == 64 * PerBlock(rip.devinfo)
    ensures rip.size == 64 * |DirSlots(rip, cache)|
  {
  }

  /** The scan over the whole directory, block by block. */
  method FindSlot(rip: CacheInode, path: seq<byte>, op: DirOp, cache: BlockCache)
        returns (b: nat, i: nat, found: bool, hit: bool, newSlots: nat, ghost k: nat)
    requires ValidDir(rip, cache)
    modifies cache
    ensures cache.blocks == old(cache.blocks)
    ensures ValidDir(rip, cache) && DirSlots(rip, cache) == old(DirSlots(rip, cache))
    ensures found ==> op != ENTER && FirstStop(op, path, DirSlots(rip, cache), 0) < |DirSlots(rip, cache)|
    ensures hit ==> op == ENTER
    ensures found || hit ==>
              0 < newSlots && newSlots - 1 == FirstStop(op, path, DirSlots(rip, cache), 0)
              && SlotIn(rip, cache, newSlots - 1, k, i, b)
    ensures !found && !hit ==> FirstStop(op, path, DirSlots(rip, cache), 0) == |DirSlots(rip, cache)|
    ensures !found && !hit && op == ENTER ==>
              newSlots == |DirSlots(rip, cache)| == k * PerBlock(rip.devinfo)
  {
    hide ValidDir, DirSlots, SlotIn, Stops, PerBlock;
    DirSizes(rip, cache);
    ghost var per, slots := PerBlock(rip.devinfo), DirSlots(rip, cache);
    var bsize := rip.devinfo.blocksize;
    found, hit, newSlots, b, i, k := false, false, 0, 0, 0, 0;
    var pos: nat := 0;
    while pos < rip.size
      invariant !found && !hit
      invariant cache.blocks == old(cache.blocks)
      invariant ValidDir(rip, cache) && DirSlots(rip, cache) == slots
      invariant pos < rip.size || op == ENTER ==> newSlots == k * per <= |slots| && pos == 64 * newSlots
      invariant forall j | 0 <= j < newSlots && j < |slots| :: !Stops(op, path, slots[j])
      invariant newSlots >= |slots| || pos < rip.size
      decreases rip.size - pos
    {
      var end;
      b, i, found, hit, end := ScanDir(rip, pos, newSlots, path, op, cache, k);
      if found || hit {
        FirstStopIs(op, path, slots, newSlots + i);
        newSlots := newSlots + i + 1;
        return;
      }
      newSlots := if end then newSlots + i else newSlots + i + 1;
      pos := pos + bsize;
      k := k + 1;
    }
    FirstStopIs(op, path, slots, |slots|);
  }

  // ----- storing a slot

  /** What a change to the directory leaves alone: zones newly marked are zones newly
      attached, and no block outside the tree changed. */
  ghost predicate Kept(g: DeviceInfo, v: View, blocks: map<nat, Block>, marks: set<nat>, v': View,
        blocks': map<nat, Block>, marks': set<nat>) {
    && Accounted(v, marks, v', marks', NO_ZONE)
    && TreeZones(v) <= TreeZones(v')
    && Untouched(blocks, blocks', TreeBlocks(g, v'))
  }

  lemma KeptSame(g: DeviceInfo, v: View, blocks: map<nat, Block>, marks: set<nat>)
    ensures Kept(g, v, blocks, marks, v, blocks, marks)
  {
  }

  /** The tree grew for block `k`, which is there now; a block that was there before holds
      what it held. */
  ghost predicate BlockReady(g: DeviceInfo, v: View, blocks: map<nat, Block>, marks: set<nat>, n: nat, v': View,
        blocks': map<nat, Block>, marks': set<nat>, k: nat, b: nat) {
    && Grew(g, v, blocks, marks, v', blocks', marks', BlockNode(g, k), {b})
    && HasDir(g, v', blocks', k) && b == FileBlock(g, v', k)
    && (k * PerBlock(g) < n ==> HasDir(g, v, blocks, k) && DirBlock(g, v', blocks', k) == DirBlock(g, v, blocks, k))
  }

  lemma ReadyAlready(g: DeviceInfo, v: View, blocks: map<nat, Block>, marks: set<nat>, n: nat, k: nat, b: nat)
    requires HasDir(g, v, blocks, k) && b == FileBlock(g, v, k)
    ensures BlockReady(g, v, blocks, marks, n, v, blocks, marks, k, b)
  {
    GrewNothing(g, v, blocks, marks, BlockNode(g, k));
    GrewThenFilled(g, v, blocks, marks, v, blocks, marks, blocks, BlockNode(g, k), b, {});
  }

  lemma EntryOneBlock(g: DeviceInfo, v: View, blocks: map<nat, Block>, marks: set<nat>, n: nat, v': View,
        blocks': map<nat, Block>, marks': set<nat>, k: nat, b: nat, entries: seq<Dirent>)
    requires 0 < NrIndirects(g) && v.Keys == Nodes(NrIndirects(g)) && Distinct(v')
    requires BlockReady(g, v, blocks, marks, n, v', blocks', marks', k, b) && |entries| == PerBlock(g)
    ensures OneDirBlock(g, v, blocks, v', blocks'[b := Dirents(entries)], k, entries)
  {
    hide IndirectBlocks, Accounted, TreeZones, GrewAbove, Distinct, FileBlock, HasZone, Nodes, PerBlock;
    forall j: nat | j != k && HasDir(g, v, blocks, j)
      ensures HasDir(g, v', blocks'[b := Dirents(entries)], j)
      ensures DirBlock(g, v', blocks'[b := Dirents(entries)], j) == DirBlock(g, v, blocks, j)
    {
      OtherBlock(g, v, blocks, marks, v', blocks', marks', k, {b}, j);
    }
  }

  function WithSlot(slots: Slots, s: nat, d: Dirent): Slots
    requires s <= |slots|
  {
    if s < |slots| then slots[s := d] else slots + [d]
  }

  /** The outcome of storing `d` as slot `s` of a directory of `n` slots. */
  ghost predicate SlotWritten(g: DeviceInfo, v: View, blocks: map<nat, Block>, marks: set<nat>, n: nat, v': View,
        blocks': map<nat, Block>, marks': set<nat>, s: nat, d: Dirent)
    requires 0 < PerBlock(g) && DirDense(g, v, blocks, n)
  {
    var n' := if s < n then n else s + 1;
    && s <= n
    && DirDense(g, v', blocks', n')
    && SlotsOf(g, v', blocks', n') == WithSlot(SlotsOf(g, v, blocks, n), s, d)
    && Kept(g, v, blocks, marks, v', blocks', marks')
    && (Tight(g, v, 64 * n) ==> Tight(g, v', 64 * n'))
  }

  /** Filling a block of the directory leaves the tree alone. */
  lemma DirBlockWritten(g: DeviceInfo, zone: seq<nat>, v: View, blocks: map<nat, Block>, k: nat, entries: seq<Dirent>)
    requires 0 < NrIndirects(g) && ValidTree(g, zone, blocks) && v == ViewOf(g, zone, blocks) && HasDir(g, v, blocks, k)
    ensures
      var blocks' := blocks[FileBlock(g, v, k) := Dirents(entries)];
      ValidTree(g, zone, blocks') && ViewOf(g, zone, blocks') == v
  {
    ViewFacts(g, zone, blocks);
    BlockApart(g, v, k);
    var blocks' := blocks[FileBlock(g, v, k) := Dirents(entries)];
    forall b | b in IndirectBlocks(g, v)
      ensures b in blocks && b in blocks' && blocks'[b] == blocks[b]
    {
      var x :| x in v && x.Interior() && v[x] != NO_ZONE && b == ToBlock(g, v[x]);
      InteriorIndirect(g, zone, blocks, x);
    }
    DataFrame(g, zone, blocks, blocks');
  }

  /** Storing entry `d` in slot `i` of a block that is ready. */
  lemma EntryStored(g: DeviceInfo, v0: View, blocks0: map<nat, Block>, marks0: set<nat>, n: nat, v1: View,
        blocks1: map<nat, Block>, marks1: set<nat>, s: nat, k: nat, i: nat, b: nat, d: Dirent)
    requires DirShape(g) && 0 < NrIndirects(g) && Distinct(v1)
    requires v0.Keys == Nodes(NrIndirects(g)) && DirDense(g, v0, blocks0, n)
    requires BlockReady(g, v0, blocks0, marks0, n, v1, blocks1, marks1, k, b)
    requires i < PerBlock(g) && s == k * PerBlock(g) + i <= n
    ensures SlotWritten(g, v0, blocks0, marks0, n, v1, blocks1[b := Dirents(blocks1[b].entries[i := d])], marks1, s, d)
  {
    var n' := if s < n then n else s + 1;
    var entries := blocks1[b].entries;
    var blocks2 := blocks1[b := Dirents(entries[i := d])];
    EntryOneBlock(g, v0, blocks0, marks0, n, v1, blocks1, marks1, k, b, entries[i := d]);
    SlotStored(g, v0, blocks0, v1, blocks2, n, s, k, i, d, entries);
    GrewThenFilled(g, v0, blocks0, marks0, v1, blocks1, marks1, blocks2, BlockNode(g, k), b, {b});
    GrewBlocks(g, v0, blocks0, marks0, v1, blocks2, marks1, k, {b});
    BlockStart(PerBlock(g), k, g.blocksize);
    TightGrew(g, v0, v1, k, 64 * n, 64 * n');
  }

  /** A failed extension leaves the directory as it was. */
  lemma NotExtended(g: DeviceInfo, v: View, blocks: map<nat, Block>, marks: set<nat>, n: nat, v': View,
        blocks': map<nat, Block>, marks': set<nat>, k: nat)
    requires 0 < NrIndirects(g) && 0 < PerBlock(g)
    requires v.Keys == Nodes(NrIndirects(g)) && Distinct(v')
    requires Grew(g, v, blocks, marks, v', blocks', marks', BlockNode(g, k), {}) && !HasZone(g, v', k)
    requires DirDense(g, v, blocks, n)
    ensures DirDense(g, v', blocks', n) && SlotsOf(g, v', blocks', n) == SlotsOf(g, v, blocks, n)
    ensures Kept(g, v, blocks, marks, v', blocks', marks')
    ensures Tight(g, v, 64 * n) ==> Tight(g, v', 64 * n)
  {
    forall j: nat | HasDir(g, v, blocks, j)
      ensures HasDir(g, v', blocks', j) && DirBlock(g, v', blocks', j) == DirBlock(g, v, blocks, j)
    {
      OtherBlock(g, v, blocks, marks, v', blocks', marks', k, {}, j);
    }
    forall s: nat | s < n
      ensures SlotsOf(g, v', blocks', n)[s] == SlotsOf(g, v, blocks, n)[s]
    {
      DirDenseAt(g, v, blocks, n, s);
    }
    GrewBlocks(g, v, blocks, marks, v', blocks', marks', k, {});
    TightGrew(g, v, v', k, 64 * n, 64 * n);
  }

  // ----- search_dir

  /** Slot `s` of a directory that had `n` slots, or the first one past them, is slot `i` of
      block `k`, which is ready in `b`. */
  ghost predicate Prepared(rip: CacheInode, cache: BlockCache, v: View, blocks: map<nat, Block>, marks: set<nat>,
        n: nat, s: nat, k: nat, i: nat, b: nat)
    reads rip`zone, cache, rip.bitmap
  {
    && rip.Owned(cache) && DirShape(rip.devinfo)
    && v.Keys == Nodes(NrIndirects(rip.devinfo)) && DirDense(rip.devinfo, v, blocks, n)
    && BlockReady(rip.devinfo, v, blocks, marks, n, rip.View(cache), cache.blocks, rip.bitmap.Zones(), k, b)
    && i < PerBlock(rip.devinfo) && s == k * PerBlock(rip.devinfo) + i <= n
  }

  lemma PreparedAlready(rip: CacheInode, cache: BlockCache, s: nat, k: nat, i: nat, b: nat)
    requires ValidDir(rip, cache) && s <= |DirSlots(rip, cache)| && SlotIn(rip, cache, s, k, i, b)
    ensures Prepared(rip, cache, rip.View(cache), cache.blocks, rip.bitmap.Zones(), |DirSlots(rip, cache)|, s, k, i, b)
  {
    ReadyAlready(rip.devinfo, rip.View(cache), cache.blocks, rip.bitmap.Zones(), |DirSlots(rip, cache)|, k, b);
  }

  /** The block of a prepared slot, and what storing `d` there will do. */
  lemma ToStore(rip: CacheInode, cache: BlockCache, v: View, blocks: map<nat, Block>, marks: set<nat>, n: nat,
        s: nat, k: nat, i: nat, b: nat, d: Dirent)
    requires Prepared(rip, cache, v, blocks, marks, n, s, k, i, b)
    ensures rip.Owned(cache) && DirShape(rip.devinfo) && DirDense(rip.devinfo, v, blocks, n)
    ensures b in cache.blocks && cache.blocks[b].Dirents? && i < |cache.blocks[b].entries|
    ensures
      var blocks' := cache.blocks[b := Dirents(cache.blocks[b].entries[i := d])];
      && ValidTree(rip.devinfo, rip.zone, blocks') && ViewOf(rip.devinfo, rip.zone, blocks') == rip.View(cache)
      && SlotWritten(rip.devinfo, v, blocks, marks, n, rip.View(cache), blocks', rip.bitmap.Zones(), s, d)
  {
    hide DirDense, SlotWritten, Bitmap.Ready, Bitmap.Zones, TreeZones, Grew, Distinct;
    ViewFacts(rip.devinfo, rip.zone, cache.blocks);
    DirBlockWritten(rip.devinfo, rip.zone, rip.View(cache), cache.blocks, k, cache.blocks[b].entries[i := d]);
    EntryStored(rip.devinfo, v, blocks, marks, n, rip.View(cache), cache.blocks, rip.bitmap.Zones(), s, k, i, b, d);
  }

  /** Stores `d` in slot `i` of the block in `b`. */
  method StoreEntry(rip: CacheInode, b: nat, i: nat, d: Dirent, cache: BlockCache, ghost v: View,
        ghost blocks: map<nat, Block>, ghost marks: set<nat>, ghost n: nat, ghost s: nat, ghost k: nat)
    requires Prepared(rip, cache, v, blocks, marks, n, s, k, i, b)
    modifies cache
    ensures rip.Owned(cache) && DirShape(rip.devinfo) && DirDense(rip.devinfo, v, blocks, n)
    ensures SlotWritten(rip.devinfo, v, blocks, marks, n, rip.View(cache), cache.blocks, rip.bitmap.Zones(), s, d)
  {
    hide BlockReady, DirDense, SlotWritten, ValidTree, ViewOf, Bitmap.Ready, Bitmap.Zones, TreeZones, Prepared;
    ToStore(rip, cache, v, blocks, marks, n, s, k, i, b, d);
    cache.blocks := cache.blocks[b := Dirents(cache.blocks[b].entries[i := d])];
  }

  /** `Kept`, since the directory had `size` bytes. */
  ghost predicate DirKept(rip: CacheInode, cache: BlockCache, v: View, blocks: map<nat, Block>, marks: set<nat>,
        size: nat)
    requires rip.Owned(cache)
    reads rip`zone, rip`size, cache, rip.bitmap
  {
    && Kept(rip.devinfo, v, blocks, marks, rip.View(cache), cache.blocks, rip.bitmap.Zones())
    && (Tight(rip.devinfo, v, size) ==> Tight(rip.devinfo, rip.View(cache), rip.size))
  }

  /** The directory fills its first `k` blocks. */
  predicate Fills(rip: CacheInode, k: nat)
    reads rip`size
  {
    rip.size == 64 * (k * PerBlock(rip.devinfo))
  }

  /** The block after the last of a directory that is full. */
  lemma ExtendStart(rip: CacheInode, cache: BlockCache, k: nat)
    requires ValidDir(rip, cache) && Fills(rip, k) && rip.size < MaxBytes(rip.devinfo)
    ensures 0 < rip.devinfo.blocksize && RelZone(rip.devinfo, rip.size) < MaxZones(rip.devinfo)
    ensures DataNode(rip.devinfo, RelZone(rip.devinfo, rip.size)) == BlockNode(rip.devinfo, k)
    ensures rip.Owned(cache) && DirShape(rip.devinfo) && rip.View(cache).Keys == Nodes(NrIndirects(rip.devinfo))
    ensures DirDense(rip.devinfo, rip.View(cache), cache.blocks, rip.size / DIR_ENTRY_SIZE)
    ensures DirSlots(rip, cache) == SlotsOf(rip.devinfo, rip.View(cache), cache.blocks, rip.size / DIR_ENTRY_SIZE)
    ensures rip.size <= 0x7FFF_FFFF
    ensures ZonesFor(rip.devinfo, rip.View(cache), rip.size, rip.size + 1) ==
            Needs(rip.View(cache), BlockNode(rip.devinfo, k))
  {
    hide ValidDir, DirSlots, SlotsOf, DirDense, MaxBytes, MaxZones, RelZone, ZonesFor, Needs;
    DirFacts(rip, cache);
    BlockZone(rip.devinfo, rip.size, k);
    OneNeeds(rip.devinfo, rip.View(cache), rip.size);
  }

  lemma BlockZone(g: DeviceInfo, size: nat, k: nat)
    requires DirShape(g) && size == 64 * (k * PerBlock(g)) && size < MaxBytes(g)
    ensures RelZone(g, size) < MaxZones(g) && DataNode(g, RelZone(g, size)) == BlockNode(g, k)
  {
    BlockStart(PerBlock(g), k, g.blocksize);
    PositionBelow(g, size);
  }

  lemma OneNeeds(g: DeviceInfo, v: View, pos: nat)
    requires 0 < g.blocksize
    ensures ZonesFor(g, v, pos, pos + 1) == Needs(v, DataNode(g, RelZone(g, pos)))
  {
    LackingToMeans(g, v, pos, pos, pos);
  }

  /** Extends a directory that is full by a block. */
  method Extend(rip: CacheInode, cache: BlockCache, ghost k: nat) returns (b: nat, err: Error)
    requires ValidDir(rip, cache) && Fills(rip, k) && rip.size < MaxBytes(rip.devinfo)
    modifies rip`zone, rip`dirty, cache, rip.bitmap`maps, rip.bitmap`zSearch
    ensures rip.Owned(cache)
    ensures err == OK || (err == ENOSPC && NearlyFull(rip.bitmap))
    ensures err == OK <==> Needs(old(rip.View(cache)), BlockNode(rip.devinfo, k)) <= old(rip.bitmap.FreeZones())
    ensures err == OK ==>
              Prepared(rip, cache, old(rip.View(cache)), old(cache.blocks), old(rip.bitmap.Zones()),
                       rip.size / DIR_ENTRY_SIZE, rip.size / DIR_ENTRY_SIZE, k, 0, b)
    ensures err != OK ==>
              && ValidDir(rip, cache) && DirSlots(rip, cache) == old(DirSlots(rip, cache))
              && DirKept(rip, cache, old(rip.View(cache)), old(cache.blocks), old(rip.bitmap.Zones()), rip.size)
  {
    hide Needs, DataZones, ZonesFor, Bitmap.FreeZones, DirDense, Grew, Bitmap.Ready, Bitmap.Zones, NearlyFull,
        TreeZones, Kept, MaxBytes, MaxZones, ValidDir, DirSlots, DirKept, Prepared, BlockAt, ViewOf, PerBlock,
        BlockNode, RelZone, SlotsOf, DataNode, Nodes, Fills;
    ExtendStart(rip, cache, k);
    ghost var v0, blocks0, marks0 := rip.View(cache), cache.blocks, rip.bitmap.Zones();
    b, err := NewBlock(rip, rip.size, DIRECTORY_BLOCK, cache);
    if err == OK {
      ExtendedDir(rip, cache, v0, blocks0, marks0, k, b);
    } else {
      NotExtendedDir(rip, cache, v0, blocks0, marks0, k);
    }
  }

  lemma ExtendedDir(rip: CacheInode, cache: BlockCache, v: View, blocks: map<nat, Block>, marks: set<nat>, k: nat,
        b: nat)
    requires rip.Owned(cache) && DirShape(rip.devinfo) && v.Keys == Nodes(NrIndirects(rip.devinfo)) && Fills(rip, k)
    requires DirDense(rip.devinfo, v, blocks, rip.size / DIR_ENTRY_SIZE)
    requires RelZone(rip.devinfo, rip.size) < MaxZones(rip.devinfo)
    requires Grew(rip.devinfo, v, blocks, marks, rip.View(cache), cache.blocks, rip.bitmap.Zones(),
                  BlockNode(rip.devinfo, k), {b})
    requires b == BlockAt(rip.devinfo, rip.zone, cache.blocks, rip.size) && b != NO_BLOCK && b in cache.blocks
    requires cache.blocks[b] == ZeroOf(DIRECTORY_BLOCK, rip.devinfo.blocksize)
    ensures Prepared(rip, cache, v, blocks, marks, rip.size / DIR_ENTRY_SIZE, rip.size / DIR_ENTRY_SIZE, k, 0, b)
  {
    hide DirDense, Grew, Bitmap.Ready, Bitmap.Zones, TreeZones, BlockAt, ViewOf, MaxZones;
    BlockStart(PerBlock(rip.devinfo), k, rip.devinfo.blocksize);
    PositionBlock(rip.devinfo, rip.zone, cache.blocks, rip.size);
  }

  lemma NotExtendedDir(rip: CacheInode, cache: BlockCache, v: View, blocks: map<nat, Block>, marks: set<nat>, k: nat)
    requires rip.Owned(cache) && DirShape(rip.devinfo) && v.Keys == Nodes(NrIndirects(rip.devinfo)) && Fills(rip, k)
    requires DirDense(rip.devinfo, v, blocks, rip.size / DIR_ENTRY_SIZE)
    requires rip.size <= MaxBytes(rip.devinfo) && rip.size <= 0x7FFF_FFFF
    requires RelZone(rip.devinfo, rip.size) < MaxZones(rip.devinfo)
    requires Grew(rip.devinfo, v, blocks, marks, rip.View(cache), cache.blocks, rip.bitmap.Zones(),
                  BlockNode(rip.devinfo, k), {})
    requires BlockAt(rip.devinfo, rip.zone, cache.blocks, rip.size) == NO_BLOCK
    ensures ValidDir(rip, cache) && DirSlots(rip, cache) == SlotsOf(rip.devinfo, v, blocks, rip.size / DIR_ENTRY_SIZE)
    ensures DirKept(rip, cache, v, blocks, marks, rip.size)
  {
    NoZonePast(rip, cache, k);
    var n := rip.size / DIR_ENTRY_SIZE;
    assert rip.size == 64 * n;
    hide DirDense, Grew, Bitmap.Ready, Bitmap.Zones, TreeZones, BlockAt, ViewOf, MaxZones, Tight, Kept, Distinct,
        PerBlock, SlotsOf, MaxBytes, ValidTree, HasZone, BlockNode, RelZone, Nodes, ValidDir, DirSlots, Fills;
    NotExtended(rip.devinfo, v, blocks, marks, n, rip.View(cache), cache.blocks, rip.bitmap.Zones(), k);
    DirOf(rip, cache, n);
  }

  lemma NoZonePast(rip: CacheInode, cache: BlockCache, k: nat)
    requires rip.Owned(cache) && DirShape(rip.devinfo) && Fills(rip, k)
    requires RelZone(rip.devinfo, rip.size) < MaxZones(rip.devinfo)
    requires BlockAt(rip.devinfo, rip.zone, cache.blocks, rip.size) == NO_BLOCK
    ensures !HasZone(rip.devinfo, rip.View(cache), k) && Distinct(rip.View(cache))
    ensures rip.size % DIR_ENTRY_SIZE == 0
  {
    hide Bitmap.Ready, Bitmap.Zones, TreeZones, BlockAt, ViewOf, MaxZones;
    BlockStart(PerBlock(rip.devinfo), k, rip.devinfo.blocksize);
    PositionBlock(rip.devinfo, rip.zone, cache.blocks, rip.size);
  }

  lemma DirOf(rip: CacheInode, cache: BlockCache, n: nat)
    requires rip.Owned(cache) && DirShape(rip.devinfo) && rip.size == 64 * n
    requires rip.size <= MaxBytes(rip.devinfo) && rip.size <= 0x7FFF_FFFF
    requires DirDense(rip.devinfo, rip.View(cache), cache.blocks, n)
    ensures ValidDir(rip, cache) && DirSlots(rip, cache) == SlotsOf(rip.devinfo, rip.View(cache), cache.blocks, n)
  {
    hide DirDense, SlotsOf, CacheInode.Owned, MaxBytes, PerBlock;
    assert rip.size / DIR_ENTRY_SIZE == n && rip.size % DIR_ENTRY_SIZE == 0;
  }

  /** The new size after a slot is written is the directory's state again. */
  lemma SlotWrittenDir(rip: CacheInode, cache: BlockCache, v: View, blocks: map<nat, Block>, marks: set<nat>, n: nat,
        s: nat, d: Dirent)
    requires rip.Owned(cache) && DirShape(rip.devinfo) && s <= n && DirDense(rip.devinfo, v, blocks, n)
    requires SlotWritten(rip.devinfo, v, blocks, marks, n, rip.View(cache), cache.blocks, rip.bitmap.Zones(), s, d)
    requires rip.size == 64 * (if s < n then n else s + 1) && rip.size <= MaxBytes(rip.devinfo)
              && rip.size <= 0x7FFF_FFFF
    ensures ValidDir(rip, cache)
    ensures DirSlots(rip, cache) == WithSlot(SlotsOf(rip.devinfo, v, blocks, n), s, d)
    ensures DirKept(rip, cache, v, blocks, marks, 64 * n)
  {
  }

  /** Erases the slot that was found. */
  method EraseSlot(rip: CacheInode, b: nat, i: nat, cache: BlockCache, ghost s: nat, ghost k: nat)
    requires ValidDir(rip, cache) && SlotIn(rip, cache, s, k, i, b) && s < |DirSlots(rip, cache)|
    modifies cache, rip`dirty
    ensures ValidDir(rip, cache)
    ensures DirSlots(rip, cache) == old(DirSlots(rip, cache))[s := old(DirSlots(rip, cache))[s].(inum := 0)]
    ensures rip.dirty
    ensures DirKept(rip, cache, old(rip.View(cache)), old(cache.blocks), rip.bitmap.Zones(), rip.size)
  {
    var g := rip.devinfo;
    ghost var v, blocks, marks, n := rip.View(cache), cache.blocks, rip.bitmap.Zones(), rip.size / DIR_ENTRY_SIZE;
    PreparedAlready(rip, cache, s, k, i, b);
    SlotHeld(rip, cache, s, k, i, b);
    var dp := cache.blocks[b].entries[i];
    hide DirDense, SlotWritten, ValidTree, Bitmap.Ready, Bitmap.Zones, TreeZones, Prepared, DirKept, ViewOf, SlotsOf,
        FileBlock, HasDir, Nodes;
    StoreEntry(rip, b, i, dp.(inum := 0), cache, v, blocks, marks, n, s, k);
    rip.dirty := true;
    SlotWrittenDir(rip, cache, v, blocks, marks, n, s, dp.(inum := 0));
  }

  lemma EnterIs(slots: Slots, path: seq<byte>, inum: nat, field: NameField, s: nat)
    requires s == FirstStop(ENTER, path, slots, 0)
    requires s < |slots| ==> field == slots[s].name
    ensures WithSlot(slots, s, Dirent(inum, Named(field, path))) == Enter(slots, path, inum, field)
  {
  }

  /** The field of a slot about to be filled. */
  lemma SlotField(rip: CacheInode, cache: BlockCache, v: View, blocks: map<nat, Block>, marks: set<nat>, n: nat,
        s: nat, k: nat, i: nat, b: nat)
    requires Prepared(rip, cache, v, blocks, marks, n, s, k, i, b)
    ensures b in cache.blocks && cache.blocks[b].Dirents? && i < |cache.blocks[b].entries|
    ensures 0 < PerBlock(rip.devinfo) && DirDense(rip.devinfo, v, blocks, n)
    ensures s < n ==> cache.blocks[b].entries[i] == SlotsOf(rip.devinfo, v, blocks, n)[s]
  {
    hide Bitmap.Ready, Bitmap.Zones, ValidTree, TreeZones, ViewOf, Grew, DirDense;
    if s < n {
      BlockSlot(rip.devinfo, v, blocks, n, k, i, s);
    }
  }

  /** Writes name and number into a slot, and counts the slot if it is new. */
  method FillSlot(rip: CacheInode, path: seq<byte>, inum: nat, b: nat, i: nat, newSlots: nat, oldSlots: nat,
        cache: BlockCache, ghost v: View, ghost blocks: map<nat, Block>, ghost marks: set<nat>, ghost k: nat)
        returns (ghost field: NameField)
    requires 0 < newSlots && Prepared(rip, cache, v, blocks, marks, oldSlots, newSlots - 1, k, i, b)
    requires newSlots > oldSlots ==> 64 * newSlots <= 0x7FFF_FFFF
    modifies rip`size, rip`dirty, cache
    ensures rip.Owned(cache) && DirShape(rip.devinfo) && DirDense(rip.devinfo, v, blocks, oldSlots)
    ensures newSlots <= oldSlots ==> field == SlotsOf(rip.devinfo, v, blocks, oldSlots)[newSlots - 1].name
    ensures SlotWritten(rip.devinfo, v, blocks, marks, oldSlots, rip.View(cache), cache.blocks, rip.bitmap.Zones(),
                        newSlots - 1, Dirent(U32(inum), Named(field, path)))
    ensures rip.size == if newSlots > oldSlots then newSlots * DIR_ENTRY_SIZE else old(rip.size)
    ensures rip.dirty
  {
    hide DirDense, SlotWritten, ValidTree, Bitmap.Ready, Bitmap.Zones, TreeZones, Prepared, U32, ViewOf, Named,
        SlotsOf, CacheInode.Owned, Grew;
    SlotField(rip, cache, v, blocks, marks, oldSlots, newSlots - 1, k, i, b);
    field := cache.blocks[b].entries[i].name;
    var name := SetName(cache.blocks[b].entries[i].name, path);
    StoreEntry(rip, b, i, Dirent(U32(inum), name), cache, v, blocks, marks, oldSlots, newSlots - 1, k);
    rip.dirty := true;
    if newSlots > oldSlots {
      rip.size := I32(newSlots * DIR_ENTRY_SIZE);
    }
  }

  lemma DirFacts(rip: CacheInode, cache: BlockCache)
    requires ValidDir(rip, cache)
    ensures rip.Owned(cache) && DirShape(rip.devinfo)
    ensures rip.size == 64 * (rip.size / DIR_ENTRY_SIZE) && rip.size <= MaxBytes(rip.devinfo) && rip.size <= 0x7FFF_FFFF
    ensures DirDense(rip.devinfo, rip.View(cache), cache.blocks, rip.size / DIR_ENTRY_SIZE)
    ensures DirSlots(rip, cache) == SlotsOf(rip.devinfo, rip.View(cache), cache.blocks, rip.size / DIR_ENTRY_SIZE)
  {
  }

  /** A slot past the last one, in a block that is there, needs no zone. */
  lemma HitNeedsNothing(rip: CacheInode, cache: BlockCache, k: nat, i: nat, b: nat)
    requires ValidDir(rip, cache) && SlotIn(rip, cache, |DirSlots(rip, cache)|, k, i, b)
    requires rip.size < MaxBytes(rip.devinfo)
    ensures 0 < rip.devinfo.blocksize && ZonesFor(rip.devinfo, rip.View(cache), rip.size, rip.size + 1) == 0
  {
    var g := rip.devinfo;
    PositionBelow(g, rip.size);
    OneNeeds(g, rip.View(cache), rip.size);
    SlotBlock(PerBlock(g), k, i, g.blocksize);
    assert rip.size == 64 * (k * PerBlock(g) + i);
    hide DirDense, MaxBytes, ViewOf, Needs, ZonesFor;
    BlockLacks(rip, cache, rip.size);
  }

  lemma SlotBlock(per: nat, k: nat, i: nat, blocksize: nat)
    requires blocksize == 64 * per && i < per
    ensures Quot(64 * (k * per + i), blocksize) == k
  {
    assert 64 * (k * per + i) == k * blocksize + 64 * i;
    DivModUnique(64 * (k * per + i), blocksize, k, 64 * i);
  }

  /** Enters a name into the slot that was found, or into a new one. */
  method EnterSlot(rip: CacheInode, path: seq<byte>, inum: nat, slotBlock: nat, slotIndex: nat, hit: bool,
        found: nat, cache: BlockCache, ghost k: nat) returns (err: Error)
    requires ValidDir(rip, cache)
    requires FirstStop(ENTER, path, DirSlots(rip, cache), 0) == |DirSlots(rip, cache)| ==>
               rip.size + DIR_ENTRY_SIZE <= MaxBytes(rip.devinfo) && rip.size + DIR_ENTRY_SIZE <= 0x7FFF_FFFF
    requires hit ==>
               0 < found && found - 1 == FirstStop(ENTER, path, DirSlots(rip, cache), 0)
               && SlotIn(rip, cache, found - 1, k, slotIndex, slotBlock)
    requires !hit ==>
               FirstStop(ENTER, path, DirSlots(rip, cache), 0) == found == |DirSlots(rip, cache)|
               && found == k * PerBlock(rip.devinfo)
    modifies rip`zone, rip`size, rip`dirty, cache, rip.bitmap`maps, rip.bitmap`zSearch
    ensures ValidDir(rip, cache)
    ensures err == OK ==> rip.dirty
    ensures err == OK ==>
              exists field: NameField :: DirSlots(rip, cache) ==
                  Enter(old(DirSlots(rip, cache)), path, U32(inum), field)
    ensures err != OK ==>
              && err == ENOSPC && NearlyFull(rip.bitmap) && DirSlots(rip, cache) == old(DirSlots(rip, cache))
              && FirstStop(ENTER, path, old(DirSlots(rip, cache)), 0) == |DirSlots(rip, cache)|
    ensures 0 < rip.devinfo.blocksize
    ensures err == OK <==>
            || FirstStop(ENTER, path, old(DirSlots(rip, cache)), 0) < |old(DirSlots(rip, cache))|
            || ZonesFor(rip.devinfo, old(rip.View(cache)), old(rip.size), old(rip.size) + 1) <=
               old(rip.bitmap.FreeZones())
    ensures DirKept(rip, cache, old(rip.View(cache)), old(cache.blocks), old(rip.bitmap.Zones()), old(rip.size))
  {
    hide DirDense, SlotWritten, ValidTree, Bitmap.Ready, Bitmap.Zones, TreeZones, Prepared, DirKept, NearlyFull, U32,
        ViewOf, SlotsOf, MaxBytes, Enter, Named, SlotIn, NrIndirects, MaxZones, NameOf, Stops, ValidDir, DirSlots,
        ZonesFor, Bitmap.FreeZones, CacheInode.Owned, PerBlock, BlockNode, Needs;
    DirFacts(rip, cache);
    var b, i, newSlots := slotBlock, slotIndex, found;
    var oldSlots := rip.size / DIR_ENTRY_SIZE;
    ghost var v, blocks, marks, slots := rip.View(cache), cache.blocks, rip.bitmap.Zones(), DirSlots(rip, cache);
    ghost var s := FirstStop(ENTER, path, slots, 0);
    if hit {
      PreparedAlready(rip, cache, s, k, i, b);
      if s == |slots| {
        HitNeedsNothing(rip, cache, k, i, b);
      }
    }
    if !hit {
      newSlots := newSlots + 1;
      ExtendStart(rip, cache, k);
      b, err := Extend(rip, cache, k);
      if err != OK {
        return;
      }
      i := 0;
    }
    ghost var field := FillSlot(rip, path, inum, b, i, newSlots, oldSlots, cache, v, blocks, marks, k);
    SlotWrittenDir(rip, cache, v, blocks, marks, oldSlots, s, Dirent(U32(inum), Named(field, path)));
    EnterIs(slots, path, U32(inum), field, s);
    err := OK;
  }

  /** Carries out an operation on the slot at which its search stopped. */
  method UseSlot(rip: CacheInode, inum: nat, op: DirOp, b: nat, i: nat, cache: BlockCache, ghost s: nat,
        ghost k: nat) returns (r: nat, err: Error)
    requires ValidDir(rip, cache) && SlotIn(rip, cache, s, k, i, b) && s < |DirSlots(rip, cache)| && op != ENTER
    modifies cache, rip`dirty
    ensures ValidDir(rip, cache)
    ensures DirKept(rip, cache, old(rip.View(cache)), old(cache.blocks), rip.bitmap.Zones(), rip.size)
    ensures op != DELETE ==> DirSlots(rip, cache) == old(DirSlots(rip, cache)) && cache.blocks == old(cache.blocks)
    ensures op == DELETE ==>
              DirSlots(rip, cache) == old(DirSlots(rip, cache))[s := old(DirSlots(rip, cache))[s].(inum := 0)]
    ensures err == if op == IS_EMPTY then ENOTEMPTY else OK
    ensures rip.dirty == (op == DELETE || old(rip.dirty))
    ensures r == if op == LOOKUP then DirSlots(rip, cache)[s].inum else inum
  {
    KeptSame(rip.devinfo, rip.View(cache), cache.blocks, rip.bitmap.Zones());
    SlotHeld(rip, cache, s, k, i, b);
    assert DirKept(rip, cache, rip.View(cache), cache.blocks, rip.bitmap.Zones(), rip.size);
    hide ValidDir, DirSlots, SlotIn, DirKept, Bitmap.Ready, Bitmap.Zones, CacheInode.Owned, CacheInode.View;
    r, err := inum, OK;
    if op == IS_EMPTY {
      err := ENOTEMPTY;
    } else if op == DELETE {
      EraseSlot(rip, b, i, cache, s, k);
    } else {
      r := cache.blocks[b].entries[i].inum;
    }
  }

  lemma SearchStart(rip: CacheInode, path: seq<byte>, cache: BlockCache)
    requires ValidDir(rip, cache)
    ensures rip.Owned(cache) && DirKept(rip, cache, rip.View(cache), cache.blocks, rip.bitmap.Zones(), rip.size)
    ensures 0 < rip.devinfo.blocksize
    ensures FirstStop(IS_EMPTY, path, DirSlots(rip, cache), 0) == FirstStop(IS_EMPTY, [], DirSlots(rip, cache), 0)
  {
    KeptSame(rip.devinfo, rip.View(cache), cache.blocks, rip.bitmap.Zones());
    IsEmptyPath(path, DirSlots(rip, cache));
  }

  /** Searches a directory for a name, to look it up, to enter or to delete it, or to tell
      whether the directory is empty. `r` is the inode number found, and otherwise `inum`.
      Fields and bytes cannot overflow: entering one more slot must fit the file's maximal
      size and its 32-bit size field. */
  method SearchDir(rip: CacheInode, path: seq<byte>, inum: nat, op: DirOp, cache: BlockCache)
        returns (r: nat, err: Error)
    requires ValidDir(rip, cache)
    requires op == ENTER && FirstStop(ENTER, path, DirSlots(rip, cache), 0) == |DirSlots(rip, cache)| ==>
               rip.size + DIR_ENTRY_SIZE <= MaxBytes(rip.devinfo) && rip.size + DIR_ENTRY_SIZE <= 0x7FFF_FFFF
    modifies rip`zone, rip`size, rip`dirty, cache, rip.bitmap`maps, rip.bitmap`zSearch
    ensures ValidDir(rip, cache)
    ensures DirKept(rip, cache, old(rip.View(cache)), old(cache.blocks), old(rip.bitmap.Zones()), old(rip.size))
    ensures op != ENTER && op != DELETE ==>
              DirSlots(rip, cache) == old(DirSlots(rip, cache)) && cache.blocks == old(cache.blocks)
    ensures op == LOOKUP ==>
              var (e, i) := Lookup(old(DirSlots(rip, cache)), path);
              err == e && r == if e == OK then i else inum
    ensures op == DELETE ==> (err, DirSlots(rip, cache)) == Delete(old(DirSlots(rip, cache)), path)
    ensures op == IS_EMPTY ==> err == IsEmpty(old(DirSlots(rip, cache)))
    ensures err == OK && (op == ENTER || op == DELETE) ==> rip.dirty
    ensures op == ENTER && err == OK ==>
              exists field: NameField :: DirSlots(rip, cache) ==
                  Enter(old(DirSlots(rip, cache)), path, U32(inum), field)
    ensures op == ENTER && err != OK ==>
              && err == ENOSPC && NearlyFull(rip.bitmap) && DirSlots(rip, cache) == old(DirSlots(rip, cache))
              && FirstStop(ENTER, path, old(DirSlots(rip, cache)), 0) == |DirSlots(rip, cache)|
    ensures 0 < rip.devinfo.blocksize
    ensures op == ENTER ==>
              (err == OK <==>
               || FirstStop(ENTER, path, old(DirSlots(rip, cache)), 0) < |old(DirSlots(rip, cache))|
               || ZonesFor(rip.devinfo, old(rip.View(cache)), old(rip.size), old(rip.size) + 1) <=
                  old(rip.bitmap.FreeZones()))
  {
    hide ZonesFor, Bitmap.FreeZones, Bitmap.Ready, Bitmap.Zones, DirKept, NearlyFull, U32, ViewOf, Enter, ValidDir,
        DirSlots, Stops, SlotIn, MaxBytes, PerBlock, CacheInode.Owned;
    SearchStart(rip, path, cache);
    r := inum;
    var b, i, found, hit, newSlots;
    ghost var k;
    b, i, found, hit, newSlots, k := FindSlot(rip, path, op, cache);
    SearchStart(rip, path, cache);
    if found {
      r, err := UseSlot(rip, inum, op, b, i, cache, newSlots - 1, k);
      return;
    }
    if op != ENTER {
      return r, if op == IS_EMPTY then OK else ENOENT;
    }
    err := EnterSlot(rip, path, inum, b, i, hit, newSlots, cache, k);
  }
}
