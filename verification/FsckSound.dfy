/** What a check finds on a sound image: nothing wrong, and all that the root leads to. */
module FsckSound {
  import opened Common
  import opened Disk
  import opened FsckCover
  import opened FsckImage
  import opened FsckState

  /** Directory `i` has an entry of this name in a zone that starts below its size. */
  ghost predicate HasEntry(img: Image, i: nat, name: seq<byte>) {
    exists z: nat, e: nat, at: nat :: EntryBelow(img, i, z, e, at) && EntryNamed(img, z, e, name)
  }

  ghost predicate EntryBelow(img: Image, i: nat, z: nat, e: nat, at: nat) {
    UnderAt(img, i, z, 0, at) && z != NO_ZONE && at < img.inode(i).size && e < img.DirEntries()
  }

  /** All inodes in use are of a sound type, and no symbolic links, whose check is taken the
      wrong way around; all zone numbers that belong to them are in range, and each stands in
      one place; directories have both dot entries. */
  ghost predicate SoundImage(img: Image) {
    && img.blocksize % 512 == 0
    && (forall i | InUse(img, i) :: WellTyped(img, i) && img.inode(i).mode != SYMBOLIC_LINK)
    && (forall a | Used(img, a) && Stored(img, a) != NO_ZONE :: img.InZones(Stored(img, a)) && !Elsewhere(img, a))
    && (forall i | InUse(img, i) && img.inode(i).mode == DIRECTORY :: HasEntry(img, i, DOT) && HasEntry(img, i, DOTDOT))
  }

  /** The zones of directories end with their sizes. */
  ghost predicate Trimmed(img: Image) {
    forall i: nat, z: nat, at: nat |
      InUse(img, i) && img.inode(i).mode == DIRECTORY && UnderAt(img, i, z, 0, at) && z != NO_ZONE ::
      at < img.inode(i).size
  }

  /** The root leads to inode `i`, through entries in zones below the sizes of directories and
      inodes that have links. */
  ghost predicate ReachBelow(img: Image, i: nat) {
    exists p :: PathBelow(img, p) && p[|p| - 1] == i
  }

  ghost predicate PathBelow(img: Image, p: seq<nat>) {
    && p != [] && p[0] == ROOT_INODE
    && (forall i | i in p :: img.inode(i).nlinks > 0)
    && forall k: nat | k + 1 < |p| :: EdgeBelow(img, p[k], p[k + 1])
  }

  // ----- nothing is reported

  /** A directory that has been read to its size, and in which an entry was not found, does
      not have it. */
  lemma LacksMeans(img: Image, claims: Claims, i: nat, name: seq<byte>)
    requires FileCovered(img, claims, i) && Lacks(img, claims, i, name)
    ensures !HasEntry(img, i, name)
  {
    hide FileCovered, UnderAt, EntryNamed;
    forall z: nat, e: nat, at: nat | EntryBelow(img, i, z, e, at)
      ensures !EntryNamed(img, z, e, name)
    {
      CoveredMeans(img, claims, i, z, 0, at);
      assert DataOf(claims, i, z);
    }
  }

  lemma NothingDoubtful(img: Image, z: nat)
    requires SoundImage(img) && z != NO_ZONE
    ensures !Doubtful(img, z)
  {
    hide Used, Stored, Elsewhere, WellTyped, HasEntry;
  }

  lemma NothingWrong(img: Image, s: State, i: nat)
    requires SoundImage(img) && InodesInv(img, s) && PlacesInv(img, s) && i in s.inodeMap
    ensures !Wrong(img, s.claims, s.refused, i)
  {
    hide SoundImage, WellTyped, FileCovered, Lacks, Reach, Doubtful, Under, HasEntry, Used;
    assert InUse(img, i);
    SoundInode(img, i);
    forall z | z in s.refused
      ensures z == NO_ZONE
    {
      if z != NO_ZONE {
        NothingDoubtful(img, z);
      }
    }
    if Bare(img, s.claims, i) {
      if Lacks(img, s.claims, i, DOT) {
        LacksMeans(img, s.claims, i, DOT);
      } else {
        LacksMeans(img, s.claims, i, DOTDOT);
      }
    }
  }

  lemma SoundInode(img: Image, i: nat)
    requires SoundImage(img) && InUse(img, i)
    ensures img.blocksize % 512 == 0 && WellTyped(img, i) && img.inode(i).mode != SYMBOLIC_LINK
    ensures img.inode(i).mode == DIRECTORY ==> HasEntry(img, i, DOT) && HasEntry(img, i, DOTDOT)
  {
    hide WellTyped, HasEntry, Used, Elsewhere;
  }

  /** On a sound image no inode is reported. */
  lemma NothingReported(img: Image, s: State)
    requires SoundImage(img) && Inv(img, s)
    ensures s.failed == {}
  {
    hide SoundImage, InodesInv, ZonesInv, LogInv, CountInv, CleanInv, PlacesInv, Wrong;
    if i :| i in s.failed {
      NothingWrong(img, s, i);
    }
  }

  // ----- what is marked

  lemma StartOfDirect(img: Image, i: nat, k: nat) returns (at: nat)
    requires k < V2_NR_DZONES
    ensures UnderAt(img, i, img.inode(i).zone[k], 0, at) && (k == 0 ==> at == 0)
  {
    at := k * img.Jump(0);
  }

  lemma StartOfHead(img: Image, i: nat, level: nat)
    requires 1 <= level <= 3
    ensures UnderAt(img, i, img.inode(i).zone[V2_NR_DZONES + level - 1], level, Start(img, level))
  {
    hide Start;
  }

  lemma StartOfEntry(img: Image, i: nat, p: nat, k: nat, level: nat, start: nat) returns (at: nat)
    requires level < 3 && p != NO_ZONE && k < img.IndirectsRead() && UnderAt(img, i, p, level + 1, start)
    ensures UnderAt(img, i, img.ind(p, k), level, at)
  {
    at := start + k * img.Jump(level);
    EntryUnder(img, i, p, k, img.ind(p, k), level, start, at);
  }

  lemma EntryUnder(img: Image, i: nat, p: nat, k: nat, z: nat, level: nat, start: nat, at: nat)
    requires level < 3 && EntryAt(img, p, k, z, level, start, at) && UnderAt(img, i, p, level + 1, start)
    ensures UnderAt(img, i, z, level, at)
  {
    hide EntryAt, Start;
  }

  /** A zone of an inode stands in it, or in a zone at the level above. */
  lemma UnderParent(img: Image, i: nat, z: nat, level: nat) returns (p: nat, k: nat)
    requires Under(img, i, z, level)
    ensures
      var zone := img.inode(i).zone;
      || (level == 0 && k < V2_NR_DZONES && zone[k] == z)
      || (1 <= level <= 3 && zone[V2_NR_DZONES + level - 1] == z)
      || (level < 3 && img.InZones(p) && k < img.IndirectsRead() && img.ind(p, k) == z && Under(img, i, p, level + 1))
  {
    var zone := img.inode(i).zone;
    p, k := 0, 0;
    if level == 0 && exists j: nat :: j < V2_NR_DZONES && zone[j] == z {
      k :| k < V2_NR_DZONES && zone[k] == z;
    } else if !(1 <= level <= 3 && zone[V2_NR_DZONES + level - 1] == z) {
      p, k :| img.InZones(p) && k < img.IndirectsRead() && img.ind(p, k) == z && Under(img, i, p, level + 1);
    }
  }

  /** Every zone of a file starts somewhere in it. */
  lemma {:induction false} StartsSomewhere(img: Image, i: nat, z: nat, level: nat) returns (at: nat)
    requires img.Valid() && Under(img, i, z, level)
    ensures UnderAt(img, i, z, level, at)
    decreases 3 - level
  {
    var p, k := UnderParent(img, i, z, level);
    hide Under, UnderAt, Start;
    var zone := img.inode(i).zone;
    if level == 0 && k < V2_NR_DZONES && zone[k] == z {
      at := StartOfDirect(img, i, k);
    } else if 1 <= level <= 3 && zone[V2_NR_DZONES + level - 1] == z {
      StartOfHead(img, i, level);
      at := Start(img, level);
    } else {
      var start := StartsSomewhere(img, i, p, level + 1);
      at := StartOfEntry(img, i, p, k, level, start);
    }
  }

  lemma EdgeIsBelow(img: Image, i: nat, j: nat)
    requires img.Valid() && Trimmed(img) && Edge(img, i, j) && img.InRange(i)
    ensures EdgeBelow(img, i, j)
  {
    hide Under, UnderAt, Names;
    var z: nat, e: nat :| img.InZones(z) && Under(img, i, z, 0) && Names(img, z, e, j);
    var at := StartsSomewhere(img, i, z, 0);
  }

  /** Without zones past the ends of directories, what is reachable is so below the sizes. */
  lemma ReachIsBelow(img: Image, i: nat)
    requires img.Valid() && Trimmed(img) && Reach(img, i) && img.inode(i).nlinks > 0
    ensures ReachBelow(img, i)
  {
    hide Edge, EdgeBelow, Trimmed;
    var p :| Path(img, p) && p[|p| - 1] == i;
    forall k: nat | k < |p|
      ensures img.inode(p[k]).nlinks > 0 && img.InRange(p[k])
      ensures k + 1 < |p| ==> EdgeBelow(img, p[k], p[k + 1])
    {
      if k > 0 {
        assert Edge(img, p[k - 1], p[k]);
        EdgeEnds(img, p[k - 1], p[k]);
      }
      if k + 1 < |p| {
        EdgeEnds(img, p[k], p[k + 1]);
        EdgeIsBelow(img, p[k], p[k + 1]);
      }
    }
    assert PathBelow(img, p);
  }

  lemma EdgeEnds(img: Image, i: nat, j: nat)
    requires Edge(img, i, j)
    ensures img.inode(i).nlinks > 0 && img.InRange(j)
  {
    hide Under;
  }

  /** On a sound image, the walk reports nothing, and marks every inode that the root leads to
      below the sizes of directories. Where directories have no zones past their sizes, which
      the walk looks at, too, it marks no other. */
  lemma SoundWalk(img: Image, s: State)
    requires img.Valid() && SoundImage(img) && Inv(img, s) && Complete(img, s) && Judged(s)
    requires ROOT_INODE in s.inodeMap || img.inode(ROOT_INODE).nlinks == 0
    ensures s.failed == {}
    ensures forall i | ReachBelow(img, i) :: i in s.inodeMap
    ensures Trimmed(img) ==> forall i :: i in s.inodeMap <==> ReachBelow(img, i)
  {
    NothingReported(img, s);
    hide InodesInv, ZonesInv, LogInv, CountInv, CleanInv, PlacesInv, FailedInv, Complete, Judged, EdgeBelow, Trimmed;
    forall i | ReachBelow(img, i)
      ensures i in s.inodeMap
    {
      var p :| PathBelow(img, p) && p[|p| - 1] == i;
      assert p[0] in p;
      CleanWalkMarksReachable(img, s, p);
    }
    if Trimmed(img) {
      forall i | i in s.inodeMap
        ensures ReachBelow(img, i)
      {
        MarkedReach(img, s, i);
        ReachIsBelow(img, i);
      }
    }
  }

  lemma MarkedReach(img: Image, s: State, i: nat)
    requires InodesInv(img, s) && i in s.inodeMap
    ensures Reach(img, i) && img.inode(i).nlinks > 0
  {
    hide Reach;
  }

  // ----- a sound image

  /** A name in its field, and NULs. */
  function Padded(name: seq<byte>): NameField
    requires |name| <= NAME_MAX
  {
    name + seq(NAME_MAX - |name|, _ => 0)
  }

  /** A file system that has only its root, in zone 2. */
  function EmptySystem(): Image {
    Image(1, 3, 2, 0, 1024,
      i => if i == 1 then FsckInode(DIRECTORY, 2, 128, [2, 0, 0, 0, 0, 0, 0, 0, 0, 0])
           else FsckInode(REGULAR, 0, 0, [0, 0, 0, 0, 0, 0, 0, 0, 0, 0]),
      (_, _) => 0,
      (z, e) => if z == 2 && e == 0 then Dirent(1, Padded(DOT)) else if z == 2 && e == 1 then Dirent(1, Padded(DOTDOT))
                else Dirent(0, Padded([])))
  }

  lemma OnlyRootZone(i: nat, z: nat, at: nat)
    requires UnderAt(EmptySystem(), i, z, 0, at) && z != NO_ZONE
    ensures i == 1 && z == 2 && at == 0
  {
    var img := EmptySystem();
    hide Start;
    assert forall p: nat, k: nat, start: nat :: !EntryAt(img, p, k, z, 0, start, at);
    var k: nat :| k < V2_NR_DZONES && img.inode(i).zone[k] == z && at == k * img.Jump(0);
    assert k == 0;
  }

  lemma OnlyRootPlace(a: Spot)
    requires Used(EmptySystem(), a) && Stored(EmptySystem(), a) != NO_ZONE
    ensures a == Spot(OfInode(1), 0) && Stored(EmptySystem(), a) == 2
  {
    hide Under;
  }

  lemma RootEntry(name: seq<byte>, e: nat)
    requires (name == DOT && e == 0) || (name == DOTDOT && e == 1)
    ensures HasEntry(EmptySystem(), 1, name)
  {
    var img := EmptySystem();
    hide UnderAt;
    var at := StartOfDirect(img, 1, 0);
    assert |name| == e + 1 && Padded(name)[..e + 1] == name && Padded(name)[e + 1] == 0;
    assert EntryNamed(img, 2, e, name);
    assert EntryBelow(img, 1, 2, e, 0);
  }

  /** It is sound, and trimmed, so what is said of such images is said of some. */
  lemma EmptySystemSound()
    ensures
      var img := EmptySystem();
      img.Valid() && img.FatalFree() && SoundImage(img) && Trimmed(img) && ReachBelow(img, ROOT_INODE)
  {
    var img := EmptySystem();
    hide Used, UnderAt, HasEntry, Stored;
    forall a | Used(img, a) && Stored(img, a) != NO_ZONE
      ensures img.InZones(Stored(img, a)) && !Elsewhere(img, a)
    {
      OnlyRootPlace(a);
      forall b: Spot | b != a && Used(img, b)
        ensures Stored(img, b) != Stored(img, a)
      {
        if Stored(img, b) != NO_ZONE {
          OnlyRootPlace(b);
        }
      }
    }
    RootEntry(DOT, 0);
    RootEntry(DOTDOT, 1);
    forall i: nat, z: nat, at: nat | UnderAt(img, i, z, 0, at) && z != NO_ZONE
      ensures at < img.inode(i).size
    {
      OnlyRootZone(i, z, at);
    }
    assert PathBelow(img, [ROOT_INODE]);
  }
}
