/** The disk image a check walks over: any image, well formed or not. */
module FsckImage {
  import opened Common
  import opened Disk

  const ROOT_INODE: nat := 1
  const NO_ENTRY: nat := 0
  const DIR_ENTRY_SIZE: nat := 64
  const CINDIR: nat := 128
  const MAX_INT16: int := 32767
  const PATH_MAX: int := 255

  datatype Mode =
    | REGULAR | DIRECTORY | BLOCK_SPECIAL | CHAR_SPECIAL | NAMED_PIPE | UNIX_SOCKET | SYMBOLIC_LINK
    | BAD

  type ZoneArray = s: seq<nat> | |s| == V2_NR_TZONES witness [0, 0, 0, 0, 0, 0, 0, 0, 0, 0]

  datatype FsckInode = FsckInode(mode: Mode, nlinks: nat, size: int, zone: ZoneArray)

  /** `ind(z, k)` is the `k`th zone number in zone `z` read as an indirect zone, `entry(z, e)`
      the `e`th entry of zone `z` read as a directory. */
  datatype Image = Image(
    ninodes: nat,
    zones: nat,
    first: nat,
    scale: nat,
    blocksize: nat,
    inode: nat -> FsckInode,
    ind: (nat, nat) -> nat,
    entry: (nat, nat) -> Dirent)
  {
    ghost predicate Valid() {
      && ROOT_INODE <= ninodes
      && 0 < first < zones
      && 1024 <= blocksize
    }

    /** No `log.Fatal` ends the walk early. */
    ghost predicate FatalFree() {
      && inode(ROOT_INODE).mode == DIRECTORY
      && forall i: nat | inode(i).mode == SYMBOLIC_LINK :: 0 <= inode(i).size <= PATH_MAX
    }

    predicate InRange(i: nat) {
      ROOT_INODE <= i <= ninodes
    }

    predicate InZones(z: nat) {
      first <= z < zones
    }

    function Indirects(): nat {
      blocksize / 4
    }

    /** Zone numbers are read in chunks of `CINDIR`; one chunk is read in any case. */
    function IndirectsRead(): nat {
      if Indirects() / CINDIR == 0 then CINDIR else CINDIR * (Indirects() / CINDIR)
    }

    function Scale(): nat {
      Pow2(scale)
    }

    function DirEntries(): nat {
      Scale() * (blocksize / DIR_ENTRY_SIZE)
    }

    /** The bytes that one entry of a zone list at this level stands for. */
    function Jump(level: nat): nat {
      if level == 0 then blocksize * Scale() else Jump(level - 1) * Indirects()
    }
  }

  // ----- what the image says, apart from any walk

  /** Zone `z` belongs to inode `ino` at this level: level 0 is data, level 1 single indirect,
      and so on. */
  ghost predicate Under(img: Image, ino: nat, z: nat, level: nat)
    decreases 3 - level
  {
    var zone := img.inode(ino).zone;
    || (level == 0 && exists k: nat :: k < V2_NR_DZONES && zone[k] == z)
    || (1 <= level <= 3 && zone[V2_NR_DZONES + level - 1] == z)
    || (level < 3 && exists p: nat, k: nat ::
          img.InZones(p) && k < img.IndirectsRead() && img.ind(p, k) == z && Under(img, ino, p, level + 1))
  }

  /** Entry `e` of zone `z` has this name, and an inode number in range. */
  predicate EntryNamed(img: Image, z: nat, e: nat, name: seq<byte>) {
    img.InRange(img.entry(z, e).inum) && NameIs(img.entry(z, e).name, name)
  }

  /** What holds a zone number: an inode, or a zone read as an indirect zone. */
  datatype Parent = OfInode(i: nat) | OfZone(p: nat)

  /** Where a zone number stands: the `k`th in an inode or an indirect zone. */
  datatype Spot = Spot(parent: Parent, k: nat)

  ghost predicate InUse(img: Image, i: nat) {
    img.InRange(i) && img.inode(i).nlinks > 0
  }

  /** The file types whose zone numbers are checked. */
  predicate ListsZones(img: Image, i: nat) {
    img.inode(i).mode !in {BLOCK_SPECIAL, CHAR_SPECIAL, BAD}
  }

  function Stored(img: Image, at: Spot): nat {
    match at.parent
    case OfInode(i) => if at.k < V2_NR_TZONES then img.inode(i).zone[at.k] else NO_ZONE
    case OfZone(p) => img.ind(p, at.k)
  }

  /** The places of zone numbers that belong to inodes in use. */
  ghost predicate Used(img: Image, at: Spot) {
    match at.parent
    case OfInode(i) => InUse(img, i) && ListsZones(img, i) && at.k < V2_NR_TZONES
    case OfZone(p) =>
      && img.InZones(p) && at.k < img.IndirectsRead()
      && exists i: nat, level: nat :: InUse(img, i) && 1 <= level <= 3 && Under(img, i, p, level)
  }

  /** A zone number stands in the image that is out of range, or stands there twice. */
  ghost predicate Doubtful(img: Image, z: nat) {
    exists a: Spot :: Used(img, a) && Stored(img, a) == z && (!img.InZones(z) || Elsewhere(img, a))
  }

  ghost predicate Elsewhere(img: Image, a: Spot) {
    exists b: Spot :: b != a && Used(img, b) && Stored(img, b) == Stored(img, a)
  }

  /** An entry that names another inode: in range, and neither `.` nor `..`. */
  ghost predicate Names(img: Image, z: nat, e: nat, i: nat) {
    && e < img.DirEntries()
    && img.entry(z, e).inum == i
    && img.InRange(i)
    && !NameIs(img.entry(z, e).name, DOT) && !NameIs(img.entry(z, e).name, DOTDOT)
  }

  /** Directory `i`, which has links itself, has an entry for inode `j`. */
  ghost predicate Edge(img: Image, i: nat, j: nat) {
    && img.inode(i).mode == DIRECTORY && img.inode(i).nlinks > 0
    && exists z: nat, e: nat :: img.InZones(z) && Under(img, i, z, 0) && Names(img, z, e, j)
  }

  ghost predicate Path(img: Image, p: seq<nat>) {
    && p != [] && p[0] == ROOT_INODE
    && forall k: nat | k + 1 < |p| :: Edge(img, p[k], p[k + 1])
  }

  /** Inode `i` can be reached from the root along directory entries. */
  ghost predicate Reach(img: Image, i: nat) {
    exists p :: Path(img, p) && p[|p| - 1] == i
  }

  lemma ReachRoot(img: Image)
    ensures Reach(img, ROOT_INODE)
  {
    assert Path(img, [ROOT_INODE]);
  }

  lemma ReachStep(img: Image, i: nat, j: nat)
    requires Reach(img, i) && Edge(img, i, j)
    ensures Reach(img, j)
  {
    var p :| Path(img, p) && p[|p| - 1] == i;
    var q := p + [j];
    forall k: nat | k + 1 < |q|
      ensures Edge(img, q[k], q[k + 1])
    {
      if k + 1 < |p| {
        assert Edge(img, p[k], p[k + 1]);
      }
    }
    assert Path(img, q);
  }

  /** The in-range inode numbers among the first `k` entries of a zone, with repetition. */
  ghost function Mentions(img: Image, z: nat, k: nat): multiset<nat> {
    if k == 0 then multiset{}
    else
      var i := img.entry(z, k - 1).inum;
      Mentions(img, z, k - 1) + if img.InRange(i) then multiset{i} else multiset{}
  }

  /** The in-range inode numbers in a list of directory zones. */
  ghost function MentionsIn(img: Image, log: seq<nat>): multiset<nat> {
    if log == [] then multiset{}
    else MentionsIn(img, log[..|log| - 1]) + Mentions(img, log[|log| - 1], img.DirEntries())
  }

  lemma {:induction false} MentionsInAppend(img: Image, a: seq<nat>, b: seq<nat>)
    ensures MentionsIn(img, a + b) == MentionsIn(img, a) + MentionsIn(img, b)
  {
    hide Mentions;
    if b == [] {
      assert a + b == a;
    } else {
      var b' := b[..|b| - 1];
      MentionsInAppend(img, a, b');
      assert (a + b)[..|a + b| - 1] == a + b';
    }
  }
}
