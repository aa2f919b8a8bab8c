/** The walk over the directory tree: mutually recursive methods over the checker's global
    variables. */
module Fsck {
  import opened Common
  import opened Disk
  import opened FsckCover
  import opened FsckImage
  import opened FsckSound
  import opened FsckState
  import FsckOffsets

  /** The walk may leave its mark on the topmost frame only, and only by setting its flags. */
  ghost predicate SameStack(f: seq<Frame>, f': seq<Frame>) {
    && |f| == |f'| && 0 < |f|
    && f'[1..] == f[1..]
    && f'[0].inum == f[0].inum
    && (f[0].dot ==> f'[0].dot) && (f[0].dotdot ==> f'[0].dotdot)
  }

  /** Where `*pos` stands after a list of `len` zones at this level: at the true offset, or
      short of it but at or past the size. */
  ghost predicate Tracks(img: Image, ino: nat, pos: nat, pos': nat, len: nat, level: nat) {
    && pos' <= pos + len * img.Jump(level)
    && (pos' == pos + len * img.Jump(level) || img.inode(ino).size <= pos')
  }

  /** In bytes: a list at level 0 stands for as many zones as it is long, and one at a level above
      for as many as `n` times, `n * n` times or `n * n * n` times that. */
  lemma TracksMeans(img: Image, ino: nat, pos: nat, pos': nat, len: nat, level: nat)
    requires level <= 3
    ensures
      var n, s := img.blocksize / 4, img.blocksize * Pow2(img.scale);
      var step := if level == 0 then s else if level == 1 then n * s
                  else if level == 2 then n * n * s else n * n * n * s;
      Tracks(img, ino, pos, pos', len, level) <==>
      pos' <= pos + len * step && (pos' == pos + len * step || img.inode(ino).size <= pos')
  {
    FsckOffsets.JumpMeans(img, img.blocksize / 4, img.blocksize * Pow2(img.scale));
  }

  /** Where the code's position stands when the true offset is `at`. */
  ghost predicate PosAt(img: Image, ino: nat, pos: nat, at: nat) {
    pos <= at && (pos == at || img.inode(ino).size <= pos)
  }

  lemma PosNext(img: Image, ino: nat, pos: nat, pos': nat, at: nat, len: nat, level: nat)
    requires PosAt(img, ino, pos, at) && Tracks(img, ino, pos, pos', len, level) && pos <= pos'
    ensures PosAt(img, ino, pos', at + len * img.Jump(level))
  {
  }

  /** The dot entries come across after the first `n` entries of a zone. */
  ghost predicate DotsAfter(img: Image, z: nat, n: nat, top: Frame, top': Frame) {
    && (top'.dot <==> top.dot || exists e: nat :: e < n && EntryNamed(img, z, e, DOT))
    && (top'.dotdot <==> top.dotdot || exists e: nat :: e < n && EntryNamed(img, z, e, DOTDOT))
  }

  lemma DotsNext(img: Image, z: nat, n: nat, top: Frame, top1: Frame, top': Frame)
    requires DotsAfter(img, z, n, top, top1)
    requires top'.dot <==> top1.dot || EntryNamed(img, z, n, DOT)
    requires top'.dotdot <==> top1.dotdot || EntryNamed(img, z, n, DOTDOT)
    ensures DotsAfter(img, z, n + 1, top, top')
  {
  }

  lemma InRangeOfName(img: Image, zno: nat, e: nat)
    ensures Names(img, zno, e, img.entry(zno, e).inum) ==> img.InRange(img.entry(zno, e).inum)
  {
  }

  /** An entry of a marked directory leads to a reachable inode. */
  lemma EntryReached(img: Image, s: State, ino: nat, zno: nat, e: nat)
    requires InodesInv(img, s) && ino in s.inodeMap && img.inode(ino).mode == DIRECTORY
    requires img.InZones(zno) && Under(img, ino, zno, 0) && Names(img, zno, e, img.entry(zno, e).inum)
    ensures Reach(img, img.entry(zno, e).inum)
  {
    assert Edge(img, ino, img.entry(zno, e).inum);
    ReachStep(img, ino, img.entry(zno, e).inum);
  }

  class Checker {
    const img: Image
    var inodeMap: set<nat>
    var zoneMap: set<nat>
    var dirMap: set<nat>
    var count: map<nat, int>
    var nfreeinode: int
    var nfreezone: int
    var ftop: seq<Frame>  // the top of the stack first
    ghost var claims: map<nat, Claim>
    ghost var places: map<nat, Spot>
    ghost var refused: set<nat>
    ghost var dirlog: seq<nat>
    ghost var examined: multiset<nat>
    ghost var clean: set<nat>
    ghost var failed: set<nat>

    ghost function S(): State
      reads this
    {
      State(inodeMap, zoneMap, dirMap, count, nfreeinode, nfreezone, claims, places, refused, dirlog, examined,
          clean, failed)
    }

    ghost predicate Ready()
      reads this
    {
      img.Valid() && img.FatalFree() && Inv(img, S()) && 0 <= nfreeinode
    }

    /** The dot entries in the zones accepted for `ino` have been come across. */
    ghost predicate Known(ino: nat)
      requires ftop != []
      reads this
    {
      DotsKnown(img, claims, ino, ftop[0])
    }

    /** The inode `ino` is being checked: it is marked, but not reported, and on top of the
        stack. */
    ghost predicate At(ino: nat)
      reads this
    {
      && ino in inodeMap && ino !in failed
      && ftop != [] && ftop[0].inum == ino
      && (ino != ROOT_INODE ==> 2 <= |ftop|)
    }

    constructor (img: Image)
      requires img.Valid() && img.FatalFree()
      ensures this.img == img && Ready() && ftop == []
      ensures inodeMap == {} && claims == map[] && dirlog == [] && examined == multiset{} && failed == {}
    {
      this.img := img;
      inodeMap, zoneMap, dirMap, count := {}, {}, {}, map[];
      nfreeinode, nfreezone := img.ninodes, img.zones - img.first;
      ftop := [];
      claims, places, refused, dirlog, examined, clean, failed := map[], map[], {}, [], multiset{}, {}, {};
    }

    /** Checks the inode an entry leads to, unless it has been checked before. */
    method DescendTree(ino: nat) returns (ok: bool)
      requires Ready() && img.InRange(ino) && Reach(img, ino)
      requires ftop == [] ==> ino == ROOT_INODE
      modifies this
      ensures Ready() && Walked(img, old(S()), S(), {})
      ensures Kept(old(S()), S(), {}) && Apart(old(S()), S())
      ensures ftop == old(ftop) && ok
      ensures ino in inodeMap || img.inode(ino).nlinks == 0
      decreases nfreeinode, 1
    {
      hide InodesInv, ZonesInv, LogInv, CountInv, CleanInv, PlacesInv, FailedInv, FileCovered, Faulted, Bare,
          WellTyped, Walked, Placed, Vacant, DotsKnown, Started, Used, StandAt, Reach, Under;
      WalkedRefl(img, S());
      PlacedSame(S(), S(), {}, OfInode(0), 0, 0);
      ftop := [Frame(ino, false, false)] + ftop;
      var visited := ino in inodeMap;
      if !visited {
        ghost var s0 := S();
        var fine := ChkInode(ino);
        if !fine {
          // a bad inode is reported; `yes` never agrees to remove it
          Reported(img, S(), ino);
          WalkedRecords(img, s0, S(), clean, failed + {ino});
          ghost var s1 := S();
          failed := failed + {ino};
          PlacedSame(s1, S(), {}, OfInode(0), 0, 0);
          PlacedTrans(s0, s1, S(), {}, OfInode(0), 0, 0);
        }
      }
      ftop := ftop[1..];
      return true;
    }

    method ChkInode(ino: nat) returns (ok: bool)
      requires Ready() && img.InRange(ino) && Reach(img, ino) && ino !in inodeMap
      requires ftop != [] && ftop[0].inum == ino && (ino != ROOT_INODE ==> 2 <= |ftop|)
      modifies this
      ensures Ready() && Walked(img, old(S()), S(), {})
      ensures Kept(old(S()), S(), {ino}) && Apart(old(S()), S())
      ensures ok && ino in inodeMap ==> ino in clean
      ensures SameStack(old(ftop), ftop)
      ensures ino in inodeMap || img.inode(ino).nlinks == 0
      ensures !ok ==> ino in inodeMap && Wrong(img, claims, refused, ino)
      decreases nfreeinode, 0
    {
      hide InodesInv, ZonesInv, LogInv, CountInv, CleanInv, PlacesInv, FailedInv, FileCovered, Faulted, Bare,
          WellTyped, Walked, Placed, Vacant, DotsKnown, Started, Used, StandAt, Reach, Under;
      ghost var s0 := S();
      WalkedRefl(img, s0);
      PlacedSame(s0, s0, {}, OfInode(0), 0, 0);
      var ip := img.inode(ino);
      if ip.nlinks == 0 {
        return true;
      }
      NotComeTo(img, s0, ino, ftop[0]);
      Mark(ino);
      ghost var s1 := S();
      PlacedSame(s0, s1, {}, OfInode(0), 0, 0);
      ok := ChkMode(ino);
      MarkedApart(s0, s1, S(), ino, V2_NR_TZONES);
      WalkedTrans(img, s0, s1, S());
      if ok {
        CleanAdded(img, S(), ino);
        WalkedRecords(img, s0, S(), clean + {ino}, failed);
        ghost var s2 := S();
        clean := clean + {ino};
        PlacedSame(s2, S(), {}, OfInode(0), 0, 0);
        PlacedTrans(s0, s2, S(), {}, OfInode(0), 0, 0);
      }
    }

    /** Marks an inode and charges its links. */
    method Mark(ino: nat)
      requires Ready() && img.InRange(ino) && Reach(img, ino) && ino !in inodeMap && img.inode(ino).nlinks > 0
      modifies this`nfreeinode, this`inodeMap, this`count
      ensures Ready() && Walked(img, old(S()), S(), {})
      ensures inodeMap == old(inodeMap) + {ino} && nfreeinode == old(nfreeinode) - 1
      ensures claims == old(claims) && places == old(places) && failed == old(failed)
      ensures forall i :: Count(S(), i) == Count(old(S()), i) - if i == ino then Links(img, ino) else 0
    {
      hide InodesInv, ZonesInv, LogInv, CountInv, CleanInv, PlacesInv, FailedInv, FileCovered, Faulted, Bare,
          WellTyped, Walked, Placed, Vacant, DotsKnown, Started, Used, StandAt, Reach, Under;
      ghost var s0 := S();
      var ip := img.inode(ino);
      nfreeinode := nfreeinode - 1;
      inodeMap := inodeMap + {ino};
      var c := if ino in count then count[ino] else 0;
      if ip.nlinks > MAX_INT16 {
        count := count[ino := c - MAX_INT16];
      } else {
        count := count[ino := c - ip.nlinks];
      }
      MarkInode(img, s0, ino);
    }

    method ChkMode(ino: nat) returns (ok: bool)
      requires Ready() && At(ino) && Known(ino) && Vacant(places, OfInode(ino), 0, V2_NR_TZONES)
      modifies this
      ensures Ready() && Walked(img, old(S()), S(), {})
      ensures Kept(old(S()), S(), {}) && Placed(old(S()), S(), {ino}, OfInode(ino), 0, V2_NR_TZONES)
      ensures SameStack(old(ftop), ftop)
      ensures ok && Tracked(img, ino) && HasZones(img, ino) ==> FileCovered(img, claims, ino)
      ensures ok ==> WellTyped(img, ino) && (img.inode(ino).mode == DIRECTORY ==> ftop[0].dot && ftop[0].dotdot)
      ensures !ok ==> Wrong(img, claims, refused, ino)
      decreases nfreeinode, 18
    {
      hide InodesInv, ZonesInv, LogInv, CountInv, CleanInv, PlacesInv, FailedInv, FileCovered, Faulted, Bare, Walked,
          Placed, Vacant, DotsKnown, Started, Used, StandAt, Reach, Under;
      match img.inode(ino).mode
      case REGULAR | NAMED_PIPE | UNIX_SOCKET =>
        ok := ChkFile(ino);
      case DIRECTORY =>
        ok := ChkDirectory(ino);
      case BLOCK_SPECIAL | CHAR_SPECIAL =>
        WalkedRefl(img, S());
        PlacedSame(S(), S(), {ino}, OfInode(ino), 0, V2_NR_TZONES);
        ok := ChkSpecial(ino);
      case SYMBOLIC_LINK =>
        ok := ChkFile(ino);
        if img.inode(ino).size <= 0 || img.inode(ino).size > img.blocksize {
          ok := false;
        }
      case BAD =>
        WalkedRefl(img, S());
        PlacedSame(S(), S(), {ino}, OfInode(ino), 0, V2_NR_TZONES);
        ok := false;
    }

    method ChkSpecial(ino: nat) returns (ok: bool)
      ensures ok <==>
              img.inode(ino).zone[0] != 0 && forall i | 1 <= i < V2_NR_TZONES :: img.inode(ino).zone[i] == NO_ZONE
    {
      ok := true;
      if img.inode(ino).zone[0] == 0 {
        ok := false;
      }
      for i := 1 to V2_NR_TZONES
        invariant ok <==> img.inode(ino).zone[0] != 0 && forall j | 1 <= j < i :: img.inode(ino).zone[j] == NO_ZONE
      {
        if img.inode(ino).zone[i] != NO_ZONE {
          ok := false;
        }
      }
    }

    method ChkDirectory(ino: nat) returns (ok: bool)
      requires Ready() && At(ino) && img.inode(ino).mode == DIRECTORY && Known(ino)
                && Vacant(places, OfInode(ino), 0, V2_NR_TZONES)
      modifies this
      ensures Ready() && Walked(img, old(S()), S(), {})
      ensures Kept(old(S()), S(), {}) && Placed(old(S()), S(), {ino}, OfInode(ino), 0, V2_NR_TZONES)
      ensures SameStack(old(ftop), ftop)
      ensures ok && Tracked(img, ino) ==> FileCovered(img, claims, ino)
      ensures ok ==> ftop[0].dot && ftop[0].dotdot
      ensures !ok ==> Faulted(img, refused, ino) || Bare(img, claims, ino)
      decreases nfreeinode, 17
    {
      hide InodesInv, ZonesInv, LogInv, CountInv, CleanInv, PlacesInv, FailedInv, FileCovered, Faulted, Bare,
          WellTyped, Walked, Placed, Vacant, DotsKnown, Started, Used, StandAt, Reach, Under, Tracked;
      ghost var s0 := S();
      DirMarked(img, s0, ino);
      dirMap := dirMap + {ino};
      ghost var s1 := S();
      PlacedSame(s0, s1, {ino}, OfInode(ino), 0, V2_NR_TZONES);
      ok := ChkFile(ino);
      WalkedTrans(img, s0, s1, S());
      PlacedTrans(s0, s1, S(), {ino}, OfInode(ino), 0, V2_NR_TZONES);
      NoDots(img, claims, ino, ftop[0], ok);
      if !ftop[0].dot {
        ok := false;
      }
      if !ftop[0].dotdot {
        ok := false;
      }
    }

    /** Checks all zones of an inode, as long as nothing is wrong. */
    method ChkFile(ino: nat) returns (ok: bool)
      requires Ready() && At(ino) && ListsZones(img, ino) && Known(ino) && Vacant(places, OfInode(ino), 0, V2_NR_TZONES)
      modifies this
      ensures Ready() && Walked(img, old(S()), S(), {})
      ensures Kept(old(S()), S(), {}) && Placed(old(S()), S(), {ino}, OfInode(ino), 0, V2_NR_TZONES)
      ensures SameStack(old(ftop), ftop) && Known(ino)
      ensures ok && Tracked(img, ino) ==> FileCovered(img, claims, ino)
      ensures !ok ==> Faulted(img, refused, ino)
      decreases nfreeinode, 16
    {
      hide InodesInv, ZonesInv, LogInv, CountInv, CleanInv, PlacesInv, FailedInv, FileCovered, Faulted, Bare,
          WellTyped, ListCovered, PartCovered, Walked, Placed, Vacant, DotsKnown, Started, Used, StandAt, Reach,
          Under, Tracked, Tracks, PosAt, Start, Grown;
      var pos;
      var zone := img.inode(ino).zone;
      ghost var s0 := S();
      FileUnder(img, ino);
      PosStart(img, ino);
      FilePlaces(img, s0, ino);
      VacantWithin(places, OfInode(ino), 0, V2_NR_TZONES, 0, V2_NR_DZONES);
      VacantWithin(places, OfInode(ino), 0, V2_NR_TZONES, V2_NR_DZONES, V2_NR_TZONES);
      ok, pos := ChkZones(ino, 0, zone[..V2_NR_DZONES], 0, 0, OfInode(ino), 0);
      VacantStays(s0, S(), {ino}, OfInode(ino), 0, V2_NR_DZONES, OfInode(ino), V2_NR_DZONES, V2_NR_TZONES);
      FileStart(img, claims, ino, pos);
      var i := V2_NR_DZONES;
      var level := 1;
      while i < V2_NR_TZONES
        invariant Ready() && At(ino) && Walked(img, s0, S(), {}) && SameStack(old(ftop), ftop)
        invariant Kept(s0, S(), {}) && Known(ino)
        invariant Placed(s0, S(), {ino}, OfInode(ino), 0, i) && Vacant(places, OfInode(ino), i, V2_NR_TZONES)
        invariant i == V2_NR_DZONES + level - 1 && level <= 4
        invariant ok && Tracked(img, ino) ==>
                  PosAt(img, ino, pos, Start(img, level)) && PartCovered(img, claims, ino, level)
        invariant !ok ==> Faulted(img, refused, ino)
      {
        ghost var s1, pos1, ok1 := S(), pos, ok;
        VacantWithin(places, OfInode(ino), i, V2_NR_TZONES, i, i + 1);
        PlacedSame(s1, s1, {ino}, OfInode(ino), i, i + 1);
        WalkedRefl(img, s1);
        FilePlaces(img, s1, ino);
        if ok {
          IndirectUnder(img, ino, level);
          ok, pos := ChkZones(ino, pos, [zone[i]], level, Start(img, level), OfInode(ino), i);
        }
        RowWalked(img, s0, s1, S(), ino, OfInode(ino), 0, i, i + 1, V2_NR_TZONES);
        if ok1 {
          FileNext(img, s1.claims, claims, ino, level, pos1, pos, ok);
        }
        i := i + 1;
        level := level + 1;
      }
      PartIsFile(img, claims, ino);
    }

    /** Checks a list of zones, which starts at offset `at` of the file. */
    method ChkZones(ino: nat, pos: nat, zlist: seq<nat>, level: nat, ghost at: nat, ghost parent: Parent, ghost lo: nat)
      returns (ok: bool, pos': nat)
      requires Ready() && At(ino) && level <= 3
      requires forall z | z in zlist && z != NO_ZONE :: Under(img, ino, z, level)
      requires Tracked(img, ino) ==> PosAt(img, ino, pos, at)
      requires Known(ino) && Started(inodeMap, claims, parent) && Vacant(places, parent, lo, lo + |zlist|)
      requires StandAt(img, zlist, parent, lo)
      modifies this
      ensures Ready() && Walked(img, old(S()), S(), {})
      ensures Kept(old(S()), S(), {}) && Placed(old(S()), S(), {ino}, parent, lo, lo + |zlist|)
      ensures SameStack(old(ftop), ftop) && Known(ino)
      ensures pos <= pos'
      ensures ok && Tracked(img, ino) ==> Tracks(img, ino, pos, pos', |zlist|, level)
      ensures ok && Tracked(img, ino) ==> ListCovered(img, claims, ino, zlist, level, at, |zlist|)
      ensures !ok ==> Faulted(img, refused, ino)
      decreases nfreeinode, 6 + 3 * level
    {
      hide InodesInv, ZonesInv, LogInv, CountInv, CleanInv, PlacesInv, FailedInv, Faulted, WellTyped, ListCovered,
          Covered, Accepted, Walked, Placed, Vacant, DotsKnown, Started, Used, StandAt, Reach, Under, Tracks,
          Tracked, PosAt, Grown;
      ok, pos' := true, pos;
      ghost var s0 := S();
      WalkedRefl(img, s0);
      TracksNothing(img, ino, pos, level);
      NothingCovered(img, claims, ino, zlist, level, at);
      PlacedSame(s0, s0, {ino}, parent, lo, lo);
      for i := 0 to |zlist|
        invariant Ready() && At(ino) && Walked(img, s0, S(), {}) && SameStack(old(ftop), ftop)
        invariant Kept(s0, S(), {}) && Known(ino) && Started(inodeMap, claims, parent)
        invariant Placed(s0, S(), {ino}, parent, lo, lo + i) && Vacant(places, parent, lo + i, lo + |zlist|)
        invariant pos <= pos'
        invariant ok && Tracked(img, ino) ==> Tracks(img, ino, pos, pos', i, level)
        invariant ok && Tracked(img, ino) ==> ListCovered(img, claims, ino, zlist, level, at, i)
        invariant !ok ==> Faulted(img, refused, ino)
      {
        ghost var s1, pos1, ok1 := S(), pos', ok;
        ghost var here := ListOffset(img, ino, pos, pos1, at, i, level, ok);
        VacantWithin(places, parent, lo + i, lo + |zlist|, lo + i, lo + i + 1);
        StandsAt(img, zlist, parent, lo, i);
        var fine;
        fine, pos' := ChkListed(ino, pos', zlist[i], level, here, Spot(parent, lo + i));
        if !fine {
          ok := false;
        }
        RowWalked(img, s0, s1, S(), ino, parent, lo, lo + i, lo + i + 1, lo + |zlist|);
        if !ok1 {
          FaultedGrown(img, s1.refused, refused, ino);
        }
        if ok && Tracked(img, ino) {
          CoverNext(img, s1.claims, claims, ino, zlist, level, at, i);
        }
        TracksNext(img, ino, pos, pos1, pos', i, level);
      }
    }

    /** Checks one zone of a list, whose number stands at `place`. */
    method ChkListed(ino: nat, pos: nat, z: nat, level: nat, ghost at: nat, ghost place: Spot)
          returns (ok: bool, pos': nat)
      requires Ready() && At(ino) && level <= 3 && (z != NO_ZONE ==> Under(img, ino, z, level))
      requires Tracked(img, ino) ==> PosAt(img, ino, pos, at)
      requires Known(ino) && Started(inodeMap, claims, place.parent)
                && Vacant(places, place.parent, place.k, place.k + 1)
      requires Used(img, place) && Stored(img, place) == z
      modifies this
      ensures Ready() && Walked(img, old(S()), S(), {})
      ensures Kept(old(S()), S(), {}) && Placed(old(S()), S(), {ino}, place.parent, place.k, place.k + 1)
      ensures SameStack(old(ftop), ftop) && Known(ino)
      ensures pos <= pos'
      ensures ok && Tracked(img, ino) ==> Tracks(img, ino, pos, pos', 1, level)
      ensures ok && Tracked(img, ino) && z != NO_ZONE ==>
                Accepted(claims, ino, z, level) && Covered(img, claims, ino, z, level, at)
      ensures !ok ==> Faulted(img, refused, ino)
      decreases nfreeinode, 5 + 3 * level, 1
    {
      hide InodesInv, ZonesInv, LogInv, CountInv, CleanInv, PlacesInv, FailedInv, Faulted, WellTyped, Covered,
          Accepted, Walked, Placed, Vacant, DotsKnown, Started, Used, Stored, Reach, Under, Tracks, Tracked, PosAt,
          Grown;
      ghost var s0, top0 := S(), ftop[0];
      PlacedSame(s0, s0, {ino}, place.parent, place.k, place.k + 1);
      TracksJump(img, ino, pos, level);
      if z == NO_ZONE {
        WalkedRefl(img, s0);
        return true, pos + img.Jump(level);
      }
      VacantAt(places, place.parent, place.k, place.k + 1);
      var marked := MarkZone(z, level, ino, place);
      if !marked {
        WalkedRefused(img, s0, z);
        PlacedSame(s0, S(), {ino}, place.parent, place.k, place.k + 1);
        RefusedFaulted(img, refused, ino, z, level);
        return false, pos + img.Jump(level);
      }
      ghost var s1 := S();
      ZoneNew(img, s0, z, ino, level, place, top0);
      ok, pos' := ZoneChk(ino, pos, z, level, at);
      StillAccepted(img, s1, S(), ino, z, level);
      ClaimedAndWalked(img, s0, S(), z, ino, level, place);
      PlacedZone(img, s0, S(), z, ino, level, place.parent, place.k, img.IndirectsRead());
    }

    /** Accepts a zone, unless it is out of range or has been accepted before. */
    method MarkZone(zno: nat, level: nat, ghost owner: nat, ghost at: Spot) returns (ok: bool)
      requires Ready() && owner in inodeMap && owner !in failed && Under(img, owner, zno, level)
      requires Used(img, at) && Stored(img, at) == zno && Started(inodeMap, claims, at.parent)
      requires forall z | z in places :: places[z] != at
      modifies this`zoneMap, this`nfreezone, this`claims, this`places, this`refused
      ensures Ready()
      ensures ok <==> img.InZones(zno) && zno !in old(claims)
      ensures ok ==> zno !in dirlog && zno !in old(places)
      ensures S() == if ok then Claimed(img, old(S()), zno, owner, level, at) else Refused(old(S()), zno)
    {
      hide LogInv, CountInv, PlacesInv, FailedInv, Under, Reach, ZoneBits, InodesInv, Used, Stored, Doubtful, Started,
          CleanInv, ZonesInv, StandAt;
      if zno < img.first || zno >= img.zones {
        StandsTwice(img, S(), zno, at);
        RefuseZone(img, S(), zno);
        refused := refused + {zno};
        return false;
      }
      var bit := zno - img.first + 1;
      ghost var s0 := S();
      ZoneBitsAt(img, claims, zno, Claim(owner, level));
      if bit in zoneMap {
        MarkedIsClaimed(img, s0, zno);
        StandsTwice(img, s0, zno, at);
        RefuseZone(img, s0, zno);
        refused := refused + {zno};
        return false;
      }
      ClaimZone(img, s0, zno, owner, level, at);
      nfreezone := nfreezone - 1;
      zoneMap := zoneMap + {bit};
      claims := claims[zno := Claim(owner, level)];
      places := places[zno := at];
      return true;
    }

    /** Checks the contents of an accepted zone, which starts at offset `at` of the file. */
    method ZoneChk(ino: nat, pos: nat, zno: nat, level: nat, ghost at: nat) returns (ok: bool, pos': nat)
      requires Ready() && At(ino) && level <= 3
      requires zno in claims && claims[zno] == Claim(ino, level) && zno !in dirlog
      requires Tracked(img, ino) ==> PosAt(img, ino, pos, at)
      requires DotsKnown(img, claims - {zno}, ino, ftop[0]) && Vacant(places, OfZone(zno), 0, img.IndirectsRead())
      modifies this
      ensures Ready() && Walked(img, old(S()), S(), if IsDirData(img, Claim(ino, level)) then {zno} else {})
      ensures Kept(old(S()), S(), {}) && Placed(old(S()), S(), {ino}, OfZone(zno), 0, img.IndirectsRead())
      ensures SameStack(old(ftop), ftop) && Known(ino)
      ensures pos <= pos'
      ensures ok && Tracked(img, ino) ==>
                Tracks(img, ino, pos, pos', 1, level) && Covered(img, claims, ino, zno, level, at)
      ensures !ok ==> Faulted(img, refused, ino)
      ensures level == 0 && img.inode(ino).mode == DIRECTORY ==>
                DotsAfter(img, zno, img.DirEntries(), old(ftop[0]), ftop[0])
      decreases nfreeinode, 5 + 3 * level, 0
    {
      hide InodesInv, LogInv, CountInv, CleanInv, PlacesInv, FailedInv, Walked, Placed, Vacant, DotsKnown, Started,
          Used, StandAt, Reach, Under, PosAt, WellTyped;
      if level == 0 {
        if img.inode(ino).mode == DIRECTORY {
          ghost var s0, top0 := S(), ftop[0];
          ok := ChkDirZone(ino, zno);
          PlacedWiden(s0, S(), {}, OfInode(0), 0, 0, {ino}, OfZone(zno), 0, img.IndirectsRead());
          DotsOfZone(img, s0, S(), ino, zno, top0, ftop[0]);
          if !ok {
            return false, pos;
          }
        } else {
          WalkedRefl(img, S());
          PlacedSame(S(), S(), {ino}, OfZone(zno), 0, img.IndirectsRead());
          NoDirectory(img, claims, ino, ftop[0]);
        }
        if img.inode(ino).mode == SYMBOLIC_LINK {
          // the check of a symbolic link's target answers true, which is taken for an error
          return false, pos;
        }
        return true, pos + img.Jump(0);
      }
      NotData(img, claims, ino, zno, ftop[0]);
      ok, pos' := ChkIndZone(ino, pos, zno, level, at);
    }

    /** Checks an indirect zone, a chunk of zone numbers at a time. */
    method ChkIndZone(ino: nat, pos: nat, zno: nat, level: nat, ghost at: nat) returns (ok: bool, pos': nat)
      requires Ready() && At(ino) && 1 <= level <= 3 && img.InZones(zno) && Under(img, ino, zno, level)
      requires Tracked(img, ino) ==> PosAt(img, ino, pos, at)
      requires zno in claims && Known(ino) && Vacant(places, OfZone(zno), 0, img.IndirectsRead())
      modifies this
      ensures Ready() && Walked(img, old(S()), S(), {})
      ensures Kept(old(S()), S(), {}) && Placed(old(S()), S(), {ino}, OfZone(zno), 0, img.IndirectsRead())
      ensures SameStack(old(ftop), ftop) && Known(ino)
      ensures pos <= pos'
      ensures ok && Tracked(img, ino) ==>
                Tracks(img, ino, pos, pos', 1, level) && Covered(img, claims, ino, zno, level, at)
      ensures !ok ==> Faulted(img, refused, ino)
      decreases nfreeinode, 4 + 3 * level
    {
      hide InodesInv, ZonesInv, LogInv, CountInv, CleanInv, PlacesInv, FailedInv, Faulted, WellTyped, ListCovered,
          Covered, EntriesCovered, Walked, Placed, Vacant, DotsKnown, Started, Used, StandAt, Reach, Under, Tracks,
          Tracked, PosAt, Grown;
      ghost var s0 := S();
      WalkedRefl(img, s0);
      var n := img.Indirects() / CINDIR;
      var offset: nat := 0;  // in zone numbers
      pos' := pos;
      ghost var chunks: nat := 0;
      TracksNothing(img, ino, pos, level - 1);
      NoEntries(img, claims, ino, zno, level - 1, at);
      PlacedSame(s0, s0, {ino}, OfZone(zno), 0, 0);
      ZoneStarted(s0, zno);
      while true
        invariant Ready() && At(ino) && Walked(img, s0, S(), {}) && SameStack(old(ftop), ftop)
        invariant Kept(s0, S(), {}) && Known(ino) && Started(inodeMap, claims, OfZone(zno))
        invariant Placed(s0, S(), {ino}, OfZone(zno), 0, offset)
                  && Vacant(places, OfZone(zno), offset, img.IndirectsRead())
        invariant offset == chunks * CINDIR && n == img.Indirects() / CINDIR - chunks
        invariant chunks == 0 || 0 < n
        invariant pos <= pos'
        invariant Tracked(img, ino) ==> Tracks(img, ino, pos, pos', chunks * CINDIR, level - 1)
        invariant Tracked(img, ino) ==> EntriesCovered(img, claims, ino, zno, level - 1, at, chunks * CINDIR)
        decreases n
      {
        var indirect := seq(CINDIR, j requires 0 <= j < CINDIR => img.ind(zno, offset + j));
        ghost var s1, pos1 := S(), pos';
        ghost var here := ListOffset(img, ino, pos, pos1, at, offset, level - 1, true);
        ChunkReady(img, s1, ino, zno, level, offset, indirect);
        ok, pos' := ChkZones(ino, pos', indirect, level - 1, here, OfZone(zno), offset);
        RowWalked(img, s0, s1, S(), ino, OfZone(zno), 0, offset, offset + CINDIR, img.IndirectsRead());
        if !ok {
          return;
        }
        if Tracked(img, ino) {
          ChunkCovered(img, s1.claims, claims, ino, zno, level - 1, at, offset, indirect);
        }
        TracksChunk(img, ino, pos, pos1, pos', chunks, level - 1);
        offset := offset + CINDIR;
        n := n - 1;
        chunks := chunks + 1;
        if !(n > 0 && pos' < img.inode(ino).size) {
          break;
        }
      }
      if Tracked(img, ino) {
        ZoneCovered(img, claims, ino, zno, pos, pos', at, chunks, level);
      }
      TracksZone(img, ino, pos, pos', chunks, level);
      ok := true;
    }

    /** Checks all entries of a directory zone. */
    method ChkDirZone(ino: nat, zno: nat) returns (ok: bool)
      requires Ready() && At(ino) && img.inode(ino).mode == DIRECTORY && img.InZones(zno) && Under(img, ino, zno, 0)
      requires zno in claims && claims[zno] == Claim(ino, 0) && zno !in dirlog
      modifies this
      ensures Ready() && Walked(img, old(S()), S(), {zno})
      ensures Kept(old(S()), S(), {}) && Apart(old(S()), S())
      ensures SameStack(old(ftop), ftop) && ok
      ensures DotsAfter(img, zno, img.DirEntries(), old(ftop[0]), ftop[0])
      decreases nfreeinode, 3
    {
      hide InodesInv, ZonesInv, LogInv, CountInv, CleanInv, PlacesInv, FailedInv, FileCovered, Faulted, Bare,
          WellTyped, Walked, Placed, Vacant, DotsKnown, Started, Used, StandAt, Reach, Under, Partial;
      ghost var s0 := S();
      PartialStart(img, s0, zno);
      PlacedSame(s0, s0, {}, OfInode(0), 0, 0);
      for e := 0 to img.DirEntries()
        invariant Ready() && At(ino) && SameStack(old(ftop), ftop)
        invariant Kept(s0, S(), {}) && Apart(s0, S())
        invariant Partial(img, s0, S(), zno, e)
        invariant DotsAfter(img, zno, e, old(ftop[0]), ftop[0])
      {
        ghost var s1, top1 := S(), ftop[0];
        var dirty := false;
        PlacedSame(s1, s1, {}, OfInode(0), 0, 0);
        if img.entry(zno, e).inum != NO_ENTRY {
          var fine := ChkEntry(ino, zno, e);
          if !fine {
            dirty := true;
          }
        }
        PlacedTrans(s0, s1, S(), {}, OfInode(0), 0, 0);
        PartialStep(img, s0, s1, S(), zno, e);
        DotsNext(img, zno, e, old(ftop[0]), top1, ftop[0]);
        if dirty {
          assert false;  // writing the zone back would panic
        }
      }
      CloseZone(img, s0, S(), zno);
      ghost var s3 := S();
      dirlog := dirlog + [zno];
      PlacedSame(s3, S(), {}, OfInode(0), 0, 0);
      PlacedTrans(s0, s3, S(), {}, OfInode(0), 0, 0);
      return true;
    }

    /** Checks one entry of a directory, and what it leads to. */
    method ChkEntry(ino: nat, zno: nat, e: nat) returns (ok: bool)
      requires Ready() && At(ino) && img.inode(ino).mode == DIRECTORY
      requires img.InZones(zno) && Under(img, ino, zno, 0) && e < img.DirEntries() && img.entry(zno, e).inum != NO_ENTRY
      modifies this
      ensures Ready()
      ensures if img.InRange(img.entry(zno, e).inum)
                then Walked(img, Counted(old(S()), img.entry(zno, e).inum), S(), {})
              else S() == old(S())
      ensures Kept(old(S()), S(), {}) && Apart(old(S()), S())
      ensures Names(img, zno, e, img.entry(zno, e).inum) ==>
                img.entry(zno, e).inum in inodeMap || img.inode(img.entry(zno, e).inum).nlinks == 0
      ensures SameStack(old(ftop), ftop) && ok
      ensures ftop[0].dot <==> old(ftop[0].dot) || EntryNamed(img, zno, e, DOT)
      ensures ftop[0].dotdot <==> old(ftop[0].dotdot) || EntryNamed(img, zno, e, DOTDOT)
      decreases nfreeinode, 2, 1
    {
      hide InodesInv, ZonesInv, LogInv, CountInv, CleanInv, PlacesInv, FailedInv, FileCovered, Faulted, Bare,
          WellTyped, Walked, Placed, Vacant, DotsKnown, Started, Used, StandAt, Under, Names;
      InRangeOfName(img, zno, e);
      PlacedSame(S(), S(), {}, OfInode(0), 0, 0);
      var dp := img.entry(zno, e);
      if dp.inum < ROOT_INODE || dp.inum > img.ninodes {
        return true;
      }
      ghost var s0 := S();
      CountEntry(img, s0, dp.inum);
      count := count[dp.inum := (if dp.inum in count then count[dp.inum] else 0) + 1];
      examined := examined + multiset{dp.inum};
      assert S() == Counted(s0, dp.inum);
      ghost var s1 := S();
      PlacedSame(s0, s1, {}, OfInode(0), 0, 0);
      ok := FollowEntry(ino, zno, e);
      PlacedTrans(s0, s1, S(), {}, OfInode(0), 0, 0);
    }

    /** What a counted entry leads to. */
    method FollowEntry(ino: nat, zno: nat, e: nat) returns (ok: bool)
      requires Ready() && At(ino) && img.inode(ino).mode == DIRECTORY
      requires img.InZones(zno) && Under(img, ino, zno, 0) && e < img.DirEntries()
                && img.InRange(img.entry(zno, e).inum)
      modifies this
      ensures Ready() && Walked(img, old(S()), S(), {})
      ensures Kept(old(S()), S(), {}) && Apart(old(S()), S())
      ensures Names(img, zno, e, img.entry(zno, e).inum) ==>
                img.entry(zno, e).inum in inodeMap || img.inode(img.entry(zno, e).inum).nlinks == 0
      ensures SameStack(old(ftop), ftop) && ok
      ensures ftop[0].dot <==> old(ftop[0].dot) || EntryNamed(img, zno, e, DOT)
      ensures ftop[0].dotdot <==> old(ftop[0].dotdot) || EntryNamed(img, zno, e, DOTDOT)
      decreases nfreeinode, 2, 0
    {
      hide LogInv, CountInv, ZonesInv, Walked, Placed, Vacant, DotsKnown, Started, Used, StandAt, Reach, Under;
      WalkedRefl(img, S());
      PlacedSame(S(), S(), {}, OfInode(0), 0, 0);
      var dp := img.entry(zno, e);
      if NameIs(dp.name, DOT) {
        ftop := [ftop[0].(dot := true)] + ftop[1..];
        return true;
      }
      if NameIs(dp.name, DOTDOT) {
        ftop := [ftop[0].(dotdot := true)] + ftop[1..];
        var parent := if ino == ROOT_INODE then ino else ftop[1].inum;
        return true;
      }
      if dp.inum in dirMap {
        return true;
      }
      EntryReached(img, S(), ino, zno, e);
      ok := DescendTree(dp.inum);
    }

    /** The whole walk, from the root. */
    method ChkTree() returns (ok: bool)
      requires Ready() && ftop == [] && inodeMap == {} && claims == map[] && dirlog == [] && examined == multiset{}
      modifies this
      ensures Ready() && ftop == [] && ok
      ensures Complete(img, S()) && Judged(S())
      ensures ROOT_INODE in inodeMap || img.inode(ROOT_INODE).nlinks == 0
      ensures SoundImage(img) ==> failed == {} && forall i | ReachBelow(img, i) :: i in inodeMap
      ensures SoundImage(img) && Trimmed(img) ==> forall i :: i in inodeMap <==> ReachBelow(img, i)
    {
      hide SoundImage, Trimmed, ReachBelow, InodesInv, ZonesInv, LogInv, CountInv, CleanInv, PlacesInv, FailedInv,
          Walked, Placed, Complete;
      ReachRoot(img);
      ghost var s0 := S();
      ok := DescendTree(ROOT_INODE);
      WalkComplete(img, s0, S());
      if SoundImage(img) {
        SoundWalk(img, S());
      }
    }

    /** The inodes that are reported for a wrong link count. */
    method ChkCount() returns (wrong: set<nat>)
      requires Ready()
      ensures forall i :: i in wrong <==> Count(S(), i) != 0
    {
      wrong := {};
      var todo := count.Keys;
      while todo != {}
        invariant todo <= count.Keys
        invariant forall i :: i in wrong <==> i in count.Keys - todo && count[i] != 0
        decreases |todo|
      {
        var ino :| ino in todo;
        todo := todo - {ino};
        if count[ino] != 0 {
          wrong := wrong + {ino};
        }
      }
    }
  }

  lemma DirMarked(img: Image, s: State, ino: nat)
    requires Inv(img, s) && ino in s.inodeMap
    ensures Inv(img, s.(dirMap := s.dirMap + {ino})) && Walked(img, s, s.(dirMap := s.dirMap + {ino}), {})
  {
    hide Reach, ZonesInv, LogInv, CountInv, CleanInv, PlacesInv, FailedInv;
    DirsPlayNoPart(img, s, s.dirMap + {ino});
    assert s.dirlog[|s.dirlog|..] == [];
  }

  lemma DirsPlayNoPart(img: Image, s: State, dirMap: set<nat>)
    ensures ZonesInv(img, s.(dirMap := dirMap)) == ZonesInv(img, s)
    ensures LogInv(img, s.(dirMap := dirMap)) == LogInv(img, s)
    ensures CountInv(img, s.(dirMap := dirMap)) == CountInv(img, s)
    ensures CleanInv(img, s.(dirMap := dirMap)) == CleanInv(img, s)
    ensures PlacesInv(img, s.(dirMap := dirMap)) == PlacesInv(img, s)
    ensures FailedInv(img, s.(dirMap := dirMap)) == FailedInv(img, s)
  {
    hide Reach, Under, FileCovered, ZoneBits, Used, Doubtful, Wrong;
  }

  lemma RefusedFaulted(img: Image, refused: set<nat>, ino: nat, z: nat, level: nat)
    requires z in refused && z != NO_ZONE && Under(img, ino, z, level)
    ensures Faulted(img, refused, ino)
  {
  }

  lemma PosStart(img: Image, ino: nat)
    ensures PosAt(img, ino, 0, 0)
  {
  }

  /** The direct zones are done. */
  lemma FileStart(img: Image, claims: Claims, ino: nat, pos: nat)
    ensures Tracks(img, ino, 0, pos, V2_NR_DZONES, 0) ==> PosAt(img, ino, pos, Start(img, 1))
    ensures ListCovered(img, claims, ino, img.inode(ino).zone[..V2_NR_DZONES], 0, 0, V2_NR_DZONES) ==>
              PartCovered(img, claims, ino, 1)
  {
  }

  /** One more level of indirection is done. */
  lemma FileNext(img: Image, claims: Claims, claims': Claims, ino: nat, level: nat, pos: nat, pos': nat, ok: bool)
    requires 1 <= level <= 3 && Grown(claims, claims') && pos <= pos'
    requires Tracked(img, ino) ==> PosAt(img, ino, pos, Start(img, level)) && PartCovered(img, claims, ino, level)
    requires
      var list := [img.inode(ino).zone[V2_NR_DZONES + level - 1]];
      ok && Tracked(img, ino) ==>
        Tracks(img, ino, pos, pos', 1, level) && ListCovered(img, claims', ino, list, level, Start(img, level), 1)
    ensures ok && Tracked(img, ino) ==>
              PosAt(img, ino, pos', Start(img, level + 1)) && PartCovered(img, claims', ino, level + 1)
  {
    hide PartCovered, ListCovered, Grown, Tracked;
    if ok && Tracked(img, ino) {
      PosNext(img, ino, pos, pos', Start(img, level), 1, level);
      PartNext(img, claims, claims', ino, level);
    }
  }

  lemma NothingCovered(img: Image, claims: Claims, ino: nat, zlist: seq<nat>, level: nat, at: nat)
    ensures ListCovered(img, claims, ino, zlist, level, at, 0)
  {
  }

  /** The offset of entry `i` of a list. */
  lemma ListOffset(img: Image, ino: nat, pos: nat, pos1: nat, at: nat, i: nat, level: nat, ok: bool) returns (here: nat)
    requires pos <= pos1 && (Tracked(img, ino) ==> PosAt(img, ino, pos, at))
    requires ok && Tracked(img, ino) ==> Tracks(img, ino, pos, pos1, i, level)
    ensures ok ==> here == at + i * img.Jump(level)
    ensures Tracked(img, ino) ==> PosAt(img, ino, pos1, here)
  {
    hide Tracked;
    if ok && Tracked(img, ino) {
      PosNext(img, ino, pos, pos1, at, i, level);
      here := at + i * img.Jump(level);
    } else if ok {
      here := at + i * img.Jump(level);
    } else {
      here := pos1;
    }
  }

  lemma WalkedGrown(img: Image, s: State, s': State, own: set<nat>)
    requires Walked(img, s, s', own)
    ensures Grown(s.claims, s'.claims)
  {
  }

  lemma StillAccepted(img: Image, s: State, s': State, ino: nat, z: nat, level: nat)
    requires Walked(img, s, s', if IsDirData(img, Claim(ino, level)) then {z} else {})
    requires z in s.claims && s.claims[z] == Claim(ino, level)
    ensures Accepted(s'.claims, ino, z, level)
  {
  }

  /** The chunks read of an indirect zone cover it. */
  lemma ZoneCovered(img: Image, claims: Claims, ino: nat, zno: nat, pos: nat, pos': nat, at: nat, chunks: nat,
        level: nat)
    requires 1 <= level && img.Valid() && 0 < chunks && Tracked(img, ino) && PosAt(img, ino, pos, at)
    requires Tracks(img, ino, pos, pos', chunks * CINDIR, level - 1)
    requires EntriesCovered(img, claims, ino, zno, level - 1, at, chunks * CINDIR)
    requires chunks == img.IndirectsRead() / CINDIR || img.inode(ino).size <= pos'
    ensures Covered(img, claims, ino, zno, level, at)
  {
    EntriesCover(img, claims, ino, zno, level - 1, at, chunks * CINDIR);
  }

  /** The records of checked inodes play no part in the rest. */
  lemma RecordsPlayNoPart(img: Image, s: State, clean: set<nat>, failed: set<nat>)
    ensures InodesInv(img, s.(clean := clean, failed := failed)) == InodesInv(img, s)
    ensures ZonesInv(img, s.(clean := clean, failed := failed)) == ZonesInv(img, s)
    ensures LogInv(img, s.(clean := clean, failed := failed)) == LogInv(img, s)
    ensures CountInv(img, s.(clean := clean, failed := failed)) == CountInv(img, s)
    ensures clean == s.clean ==> CleanInv(img, s.(clean := clean, failed := failed)) == CleanInv(img, s)
    ensures PlacesInv(img, s.(clean := clean, failed := failed)) == PlacesInv(img, s)
    ensures failed == s.failed ==> FailedInv(img, s.(clean := clean, failed := failed)) == FailedInv(img, s)
  {
    hide Reach, Under, FileCovered, ZoneBits, Used, Doubtful, Wrong;
  }

  /** An inode whose check found something wrong. */
  lemma Reported(img: Image, s: State, ino: nat)
    requires Inv(img, s) && ino in s.inodeMap && Wrong(img, s.claims, s.refused, ino)
    ensures Inv(img, s.(failed := s.failed + {ino}))
  {
    hide InodesInv, ZonesInv, LogInv, CountInv, CleanInv, PlacesInv, Wrong;
    RecordsPlayNoPart(img, s, s.clean, s.failed + {ino});
  }

  /** The walk has done nothing for an inode that is not marked. */
  lemma NotComeTo(img: Image, s: State, ino: nat, top: Frame)
    requires Inv(img, s) && ino !in s.inodeMap
    ensures ino !in s.failed && DotsKnown(img, s.claims, ino, top) && Vacant(s.places, OfInode(ino), 0, V2_NR_TZONES)
  {
    hide InodesInv, LogInv, CountInv, CleanInv, PlacesInv, ZonesInv, Wrong, DotsKnown, Vacant;
    DotsAtFirst(img, s, ino, top);
    VacantBefore(img, s, OfInode(ino), 0, V2_NR_TZONES);
  }

  /** A dot entry that has not been come across is missing. */
  lemma NoDots(img: Image, claims: Claims, ino: nat, top: Frame, ok: bool)
    requires DotsKnown(img, claims, ino, top) && img.inode(ino).mode == DIRECTORY
    requires ok && Tracked(img, ino) ==> FileCovered(img, claims, ino)
    ensures ok && !(top.dot && top.dotdot) ==> Bare(img, claims, ino)
  {
    hide FileCovered, Lacks;
  }

  lemma NoDirectory(img: Image, claims: Claims, ino: nat, top: Frame)
    ensures img.inode(ino).mode != DIRECTORY ==> DotsKnown(img, claims, ino, top)
  {
  }

  /** An indirect zone has no entries. */
  lemma NotData(img: Image, claims: Claims, ino: nat, z: nat, top: Frame)
    requires DotsKnown(img, claims - {z}, ino, top)
    ensures !DataOf(claims, ino, z) ==> DotsKnown(img, claims, ino, top)
  {
    if !DataOf(claims, ino, z) {
      DotsKept(img, claims - {z}, claims, ino, top, top);
    }
  }

  /** All entries of one more directory zone have been looked at. */
  lemma DotsOfZone(img: Image, s: State, s': State, ino: nat, z: nat, top: Frame, top': Frame)
    requires Apart(s, s') && ino in s.inodeMap && DotsKnown(img, s.claims - {z}, ino, top)
    requires DotsAfter(img, z, img.DirEntries(), top, top')
    ensures DotsKnown(img, s'.claims, ino, top')
  {
    hide NameIs;
    var claims := s'.claims - {z};
    DotsKept(img, s.claims - {z}, claims, ino, top, top');
    assert forall y | DataOf(s'.claims, ino, y) :: y == z || DataOf(claims, ino, y);
  }

  /** The zone numbers of a list stand in a row, from place `lo` on. */
  ghost predicate StandAt(img: Image, zlist: seq<nat>, parent: Parent, lo: nat) {
    forall k: nat | k < |zlist| :: Stands(img, zlist[k], Spot(parent, lo + k))
  }

  ghost predicate Stands(img: Image, z: nat, at: Spot) {
    Used(img, at) && Stored(img, at) == z
  }

  lemma StandsAt(img: Image, zlist: seq<nat>, parent: Parent, lo: nat, k: nat)
    requires StandAt(img, zlist, parent, lo) && k < |zlist|
    ensures Used(img, Spot(parent, lo + k)) && Stored(img, Spot(parent, lo + k)) == zlist[k]
  {
    hide Used, Stored;
    assert Stands(img, zlist[k], Spot(parent, lo + k));
  }

  /** Where the zone numbers of an inode stand. */
  lemma FilePlaces(img: Image, s: State, ino: nat)
    requires Inv(img, s) && ino in s.inodeMap && ListsZones(img, ino)
    ensures Started(s.inodeMap, s.claims, OfInode(ino))
    ensures StandAt(img, img.inode(ino).zone[..V2_NR_DZONES], OfInode(ino), 0)
    ensures forall i | V2_NR_DZONES <= i < V2_NR_TZONES :: StandAt(img, [img.inode(ino).zone[i]], OfInode(ino), i)
  {
    hide ZonesInv, LogInv, CountInv, CleanInv, PlacesInv, FailedInv, Reach;
  }

  /** Where those of a chunk of an indirect zone stand. */
  lemma ChunkPlaces(img: Image, s: State, ino: nat, zno: nat, level: nat, offset: nat, indirect: seq<nat>)
    requires Inv(img, s) && ino in s.inodeMap && 1 <= level <= 3 && img.InZones(zno) && Under(img, ino, zno, level)
    requires offset + CINDIR <= img.IndirectsRead()
    requires |indirect| == CINDIR && forall j: nat | j < CINDIR :: indirect[j] == img.ind(zno, offset + j)
    ensures StandAt(img, indirect, OfZone(zno), offset)
  {
    hide ZonesInv, LogInv, CountInv, CleanInv, PlacesInv, FailedInv, Reach, Under;
    assert InUse(img, ino);
    forall k: nat | k < |indirect|
      ensures Stands(img, indirect[k], Spot(OfZone(zno), offset + k))
    {
      assert offset + k < img.IndirectsRead();
    }
  }

  /** Before a chunk of an indirect zone is checked. */
  lemma ChunkReady(img: Image, s: State, ino: nat, zno: nat, level: nat, offset: nat, indirect: seq<nat>)
    requires Inv(img, s) && ino in s.inodeMap && 1 <= level <= 3 && img.InZones(zno) && Under(img, ino, zno, level)
    requires offset + CINDIR <= img.IndirectsRead() && Vacant(s.places, OfZone(zno), offset, img.IndirectsRead())
    requires |indirect| == CINDIR && forall j: nat | j < CINDIR :: indirect[j] == img.ind(zno, offset + j)
    ensures StandAt(img, indirect, OfZone(zno), offset) && forall z | z in indirect :: Under(img, ino, z, level - 1)
    ensures Vacant(s.places, OfZone(zno), offset, offset + CINDIR)
  {
    hide Inv, StandAt, Vacant;
    ChunkUnder(img, ino, zno, level, offset, indirect);
    ChunkPlaces(img, s, ino, zno, level, offset, indirect);
    VacantWithin(s.places, OfZone(zno), offset, img.IndirectsRead(), offset, offset + CINDIR);
  }

  /** After the next places in a row have been walked. */
  lemma RowWalked(img: Image, s0: State, s1: State, s2: State, ino: nat, parent: Parent, lo: nat, mid: nat, next: nat,
        hi: nat)
    requires Walked(img, s0, s1, {}) && Walked(img, s1, s2, {}) && lo <= mid <= next <= hi
    requires Placed(s0, s1, {ino}, parent, lo, mid) && Placed(s1, s2, {ino}, parent, mid, next)
    requires Started(s1.inodeMap, s1.claims, parent) && Vacant(s1.places, parent, mid, hi)
    ensures Walked(img, s0, s2, {}) && Grown(s1.claims, s2.claims)
    ensures Placed(s0, s2, {ino}, parent, lo, next) && Placed(s0, s2, {ino}, parent, lo, hi)
    ensures Started(s2.inodeMap, s2.claims, parent) && Vacant(s2.places, parent, next, hi)
  {
    hide Walked, Placed, Vacant, Started, Grown;
    WalkedTrans(img, s0, s1, s2);
    WalkedGrown(img, s1, s2, {});
    PlacedNext(s0, s1, s2, {ino}, parent, lo, mid, next);
    PlacedWiden(s0, s2, {ino}, parent, lo, next, {ino}, parent, lo, hi);
    StartedStays(s1, s2, {ino}, parent, mid, next);
    VacantWithin(s1.places, parent, mid, hi, next, hi);
    VacantStays(s1, s2, {ino}, parent, mid, next, parent, next, hi);
  }

  lemma VacantAt(places: map<nat, Spot>, parent: Parent, lo: nat, hi: nat)
    requires Vacant(places, parent, lo, hi) && lo < hi
    ensures forall z | z in places :: places[z] != Spot(parent, lo)
  {
  }

  lemma ZoneStarted(s: State, z: nat)
    ensures z in s.claims ==> Started(s.inodeMap, s.claims, OfZone(z))
  {
  }

  lemma StartedStays(s: State, s': State, cur: set<nat>, parent: Parent, lo: nat, hi: nat)
    requires Started(s.inodeMap, s.claims, parent) && Placed(s, s', cur, parent, lo, hi)
    ensures Started(s'.inodeMap, s'.claims, parent)
  {
  }

  /** A zone just accepted: nothing has been read of it. */
  lemma ZoneNew(img: Image, s: State, z: nat, ino: nat, level: nat, at: Spot, top: Frame)
    requires Inv(img, s) && img.first <= z && z !in s.claims && Started(s.inodeMap, s.claims, at.parent)
    requires DotsKnown(img, s.claims, ino, top)
    ensures
      var s' := Claimed(img, s, z, ino, level, at);
      DotsKnown(img, s'.claims - {z}, ino, top) && Vacant(s'.places, OfZone(z), 0, img.IndirectsRead())
  {
    hide InodesInv, ZonesInv, LogInv, CountInv, CleanInv, PlacesInv, FailedInv, DotsKnown;
    var s' := Claimed(img, s, z, ino, level, at);
    VacantBefore(img, s, OfZone(z), 0, img.IndirectsRead());
    assert s'.claims - {z} == s.claims;
  }

  lemma WalkedRecords(img: Image, s: State, s': State, clean: set<nat>, failed: set<nat>)
    requires Walked(img, s, s', {})
    ensures Walked(img, s, s'.(clean := clean, failed := failed), {})
  {
  }

  /** An inode whose check found nothing wrong. */
  lemma CleanAdded(img: Image, s: State, ino: nat)
    requires Inv(img, s) && ino in s.inodeMap && WellTyped(img, ino)
    requires Tracked(img, ino) && HasZones(img, ino) ==> FileCovered(img, s.claims, ino)
    ensures Inv(img, s.(clean := s.clean + {ino}))
  {
    hide InodesInv, ZonesInv, LogInv, CountInv, FileCovered;
    RecordsPlayNoPart(img, s, s.clean + {ino}, s.failed);
  }

  lemma ChunkUnder(img: Image, ino: nat, zno: nat, level: nat, offset: nat, indirect: seq<nat>)
    requires 1 <= level <= 3 && img.InZones(zno) && Under(img, ino, zno, level)
              && offset + CINDIR <= img.IndirectsRead()
    requires |indirect| == CINDIR && forall j: nat | j < CINDIR :: indirect[j] == img.ind(zno, offset + j)
    ensures forall z | z in indirect :: Under(img, ino, z, level - 1)
  {
  }

  lemma TracksChunk(img: Image, ino: nat, pos: nat, pos1: nat, pos2: nat, chunks: nat, level: nat)
    ensures Tracks(img, ino, pos, pos1, chunks * CINDIR, level) && Tracks(img, ino, pos1, pos2, CINDIR, level)
              && pos1 <= pos2 ==>
              Tracks(img, ino, pos, pos2, (chunks + 1) * CINDIR, level)
  {
  }

  /** All chunks of a zone make one step at the level above. */
  lemma TracksZone(img: Image, ino: nat, pos: nat, pos': nat, chunks: nat, level: nat)
    requires 1 <= level && img.Valid() && 0 < chunks <= img.IndirectsRead() / CINDIR
    requires chunks == img.IndirectsRead() / CINDIR || img.inode(ino).size <= pos'
    ensures Tracked(img, ino) && Tracks(img, ino, pos, pos', chunks * CINDIR, level - 1) ==>
              Tracks(img, ino, pos, pos', 1, level)
  {
    if Tracked(img, ino) {
      var q := img.blocksize / 512;
      assert img.Indirects() == CINDIR * q && img.IndirectsRead() == CINDIR * q;
      var j := img.Jump(level - 1);
      assert img.Jump(level) == j * img.Indirects() == img.Indirects() * j;
      MulAtMost(chunks * CINDIR, img.Indirects(), j);
    }
  }

  lemma MarkedIsClaimed(img: Image, s: State, z: nat)
    requires ZonesInv(img, s) && img.first <= z && Bit(img, z) in s.zoneMap
    ensures z in s.claims
  {
  }

  lemma FileUnder(img: Image, ino: nat)
    ensures forall k: nat | k < V2_NR_DZONES :: Under(img, ino, img.inode(ino).zone[k], 0)
  {
  }

  lemma IndirectUnder(img: Image, ino: nat, level: nat)
    requires 1 <= level <= 3
    ensures Under(img, ino, img.inode(ino).zone[V2_NR_DZONES + level - 1], level)
  {
  }

  lemma TracksNothing(img: Image, ino: nat, pos: nat, level: nat)
    ensures Tracks(img, ino, pos, pos, 0, level)
  {
  }

  lemma TracksJump(img: Image, ino: nat, pos: nat, level: nat)
    ensures Tracks(img, ino, pos, pos + img.Jump(level), 1, level)
  {
  }

  lemma TracksNext(img: Image, ino: nat, pos: nat, pos1: nat, pos2: nat, i: nat, level: nat)
    ensures Tracks(img, ino, pos, pos1, i, level) && Tracks(img, ino, pos1, pos2, 1, level) && pos1 <= pos2 ==>
              Tracks(img, ino, pos, pos2, i + 1, level)
  {
  }
}
