/** The global variables of the checker, and what a part of the walk may do to them. */
module FsckState {
  import opened Common
  import opened Disk
  import opened FsckCover
  import opened FsckImage

  /** One level of the walk: the entry it came through, and the dot entries seen so far. */
  datatype Frame = Frame(inum: nat, dot: bool, dotdot: bool)

  /** `claims`, `places`, `refused`, `dirlog`, `examined`, `clean` and `failed` only record what
      happened: the zones accepted by `markzone`, where their numbers stood, and the zones it
      refused, the directory zones checked to their end, in order, the in-range inode numbers of
      all entries looked at, and the inodes whose check found nothing wrong, or something. */
  datatype State = State(
    inodeMap: set<nat>,
    zoneMap: set<nat>,
    dirMap: set<nat>,
    count: map<nat, int>,
    nfreeinode: int,
    nfreezone: int,
    claims: map<nat, Claim>,
    places: map<nat, Spot>,
    refused: set<nat>,
    dirlog: seq<nat>,
    examined: multiset<nat>,
    clean: set<nat>,
    failed: set<nat>)

  function Count(s: State, i: nat): int {
    if i in s.count then s.count[i] else 0
  }

  /** The links an inode is charged with. */
  function Links(img: Image, i: nat): int {
    if img.inode(i).nlinks > MAX_INT16 then MAX_INT16 else img.inode(i).nlinks
  }

  ghost predicate IsDirData(img: Image, c: Claim) {
    c.level == 0 && img.inode(c.owner).mode == DIRECTORY
  }

  ghost function AllInodes(img: Image): set<nat> {
    set i: nat | i <= img.ninodes && img.InRange(i)
  }

  ghost function ZoneBits(img: Image, claims: map<nat, Claim>): set<nat> {
    set z: nat | z in claims && img.first <= z :: Bit(img, z)
  }

  /** Marked inodes are reachable and linked; with the free ones they make up all inodes. */
  ghost predicate InodesInv(img: Image, s: State) {
    && s.inodeMap <= AllInodes(img)
    && s.nfreeinode + |s.inodeMap| == img.ninodes && 0 <= s.nfreeinode
    && s.dirMap <= s.inodeMap
    && forall i | i in s.inodeMap :: Reach(img, i) && img.inode(i).nlinks > 0
  }

  /** The zone map is the set of accepted zones; with the free ones they make up all zones.
      Each belongs to the inode it was accepted for. A zone is refused only if it is out of
      range or has been accepted already. */
  ghost predicate ZonesInv(img: Image, s: State) {
    && s.zoneMap == ZoneBits(img, s.claims)
    && s.nfreezone + |s.claims| == img.zones - img.first
    && (forall z | z in s.refused :: !img.InZones(z) || z in s.claims)
    && forall z | z in s.claims ::
         img.InZones(z) && s.claims[z].owner in s.inodeMap && Under(img, s.claims[z].owner, z, s.claims[z].level)
  }

  /** Directory zones are checked at most once. */
  ghost predicate LogInv(img: Image, s: State) {
    && (forall z | z in s.dirlog :: z in s.claims && IsDirData(img, s.claims[z]))
    && (forall a, b | 0 <= a < b < |s.dirlog| :: s.dirlog[a] != s.dirlog[b])
  }

  /** An inode is counted once for each entry that names it, less its links once marked. */
  ghost predicate CountInv(img: Image, s: State) {
    forall i :: Count(s, i) == s.examined[i] - if i in s.inodeMap then Links(img, i) else 0
  }

  /** An inode whose check found nothing wrong has had all its zones below the size accepted. */
  ghost predicate CleanInv(img: Image, s: State) {
    forall i | i in s.clean ::
      i in s.inodeMap && WellTyped(img, i) && (Tracked(img, i) && HasZones(img, i) ==> FileCovered(img, s.claims, i))
  }

  /** The walk has come to this inode, or to this indirect zone. */
  ghost predicate Started(inodeMap: set<nat>, claims: Claims, parent: Parent) {
    match parent
    case OfInode(i) => i in inodeMap
    case OfZone(p) => p in claims
  }

  /** Every accepted zone has been accepted at one place, and a zone is refused only if its
      number is out of range or stands in two places. */
  ghost predicate PlacesInv(img: Image, s: State) {
    && s.places.Keys == s.claims.Keys
    && (forall z | z in s.places ::
          Used(img, s.places[z]) && Stored(img, s.places[z]) == z && Started(s.inodeMap, s.claims, s.places[z].parent))
    && forall z | z in s.refused :: Doubtful(img, z)
  }

  /** Only inodes with something wrong are reported. */
  ghost predicate FailedInv(img: Image, s: State) {
    forall i | i in s.failed :: i in s.inodeMap && Wrong(img, s.claims, s.refused, i)
  }

  /** What holds at every point of the walk. */
  ghost predicate Inv(img: Image, s: State) {
    && InodesInv(img, s) && ZonesInv(img, s) && LogInv(img, s) && CountInv(img, s) && CleanInv(img, s)
    && PlacesInv(img, s) && FailedInv(img, s)
  }

  /** Marks are never taken back, and every newly marked inode, except those in `but`, has been
      checked. Inodes marked before are not reported any more. */
  ghost predicate Kept(s: State, s': State, but: set<nat>) {
    && s.inodeMap <= s'.inodeMap && s'.nfreeinode <= s.nfreeinode
    && s.clean <= s'.clean && s.failed <= s'.failed && s.refused <= s'.refused
    && (forall i | i in s'.inodeMap :: i in s.inodeMap || i in s'.clean || i in s'.failed || i in but)
    && forall i | i in s'.failed :: i in s.failed || i !in s.inodeMap
  }

  // ----- which places a part of the walk comes to

  /** No zone has been accepted yet at these places. */
  ghost predicate Vacant(places: map<nat, Spot>, parent: Parent, lo: nat, hi: nat) {
    forall z | z in places :: !(places[z].parent == parent && lo <= places[z].k < hi)
  }

  /** Zones are accepted only for the inodes in `cur`, or for inodes marked meanwhile; and only
      at these places, or in inodes and zones that the walk has come to meanwhile. */
  ghost predicate Placed(s: State, s': State, cur: set<nat>, parent: Parent, lo: nat, hi: nat) {
    && s.inodeMap <= s'.inodeMap && Grown(s.claims, s'.claims)
    && (forall z | z in s.places :: z in s'.places && s'.places[z] == s.places[z])
    && (forall z | z in s'.claims && z !in s.claims :: s'.claims[z].owner in cur || s'.claims[z].owner !in s.inodeMap)
    && forall z | z in s'.places && z !in s.places ::
         || (s'.places[z].parent == parent && lo <= s'.places[z].k < hi)
         || !Started(s.inodeMap, s.claims, s'.places[z].parent)
  }

  /** Nothing is accepted for what had been marked before. */
  ghost predicate Apart(s: State, s': State) {
    Placed(s, s', {}, OfInode(0), 0, 0)
  }

  lemma PlacedSame(s: State, s': State, cur: set<nat>, parent: Parent, lo: nat, hi: nat)
    requires s'.claims == s.claims && s'.places == s.places && s.inodeMap <= s'.inodeMap
    ensures Placed(s, s', cur, parent, lo, hi)
  {
  }

  lemma PlacedWiden(s: State, s': State, cur: set<nat>, parent: Parent, lo: nat, hi: nat, cur': set<nat>,
        parent': Parent, lo': nat, hi': nat)
    requires Placed(s, s', cur, parent, lo, hi) && cur <= cur'
    requires hi <= lo || (parent' == parent && lo' <= lo && hi <= hi')
    ensures Placed(s, s', cur', parent', lo', hi')
  {
  }

  lemma PlacedTrans(s: State, s1: State, s2: State, cur: set<nat>, parent: Parent, lo: nat, hi: nat)
    requires Placed(s, s1, cur, parent, lo, hi) && Placed(s1, s2, cur, parent, lo, hi)
    ensures Placed(s, s2, cur, parent, lo, hi)
  {
  }

  /** The next places in a row. */
  lemma PlacedNext(s: State, s1: State, s2: State, cur: set<nat>, parent: Parent, lo: nat, mid: nat, hi: nat)
    requires Placed(s, s1, cur, parent, lo, mid) && Placed(s1, s2, cur, parent, mid, hi) && lo <= mid <= hi
    ensures Placed(s, s2, cur, parent, lo, hi)
  {
    hide Placed;
    PlacedWiden(s, s1, cur, parent, lo, mid, cur, parent, lo, hi);
    PlacedWiden(s1, s2, cur, parent, mid, hi, cur, parent, lo, hi);
    PlacedTrans(s, s1, s2, cur, parent, lo, hi);
  }

  /** Other places of what the walk has come to stay vacant. */
  lemma VacantStays(s: State, s': State, cur: set<nat>, parent: Parent, lo: nat, hi: nat, parent': Parent, lo': nat,
        hi': nat)
    requires Placed(s, s', cur, parent, lo, hi) && Vacant(s.places, parent', lo', hi')
    requires Started(s.inodeMap, s.claims, parent') && (parent' != parent || hi <= lo' || hi' <= lo)
    ensures Vacant(s'.places, parent', lo', hi')
  {
  }

  /** The walk has accepted nothing in an inode or a zone to which it has not come. */
  lemma VacantBefore(img: Image, s: State, parent: Parent, lo: nat, hi: nat)
    requires PlacesInv(img, s) && !Started(s.inodeMap, s.claims, parent)
    ensures Vacant(s.places, parent, lo, hi)
  {
  }

  lemma VacantWithin(places: map<nat, Spot>, parent: Parent, lo: nat, hi: nat, lo': nat, hi': nat)
    requires Vacant(places, parent, lo, hi) && lo <= lo' && hi' <= hi
    ensures Vacant(places, parent, lo', hi')
  {
  }

  /** A zone accepted at a place, and what is under it. */
  lemma PlacedZone(img: Image, s: State, s': State, z: nat, ino: nat, level: nat, parent: Parent, k: nat, hi: nat)
    requires img.first <= z && z !in s.claims && z !in s.places
    requires Placed(Claimed(img, s, z, ino, level, Spot(parent, k)), s', {ino}, OfZone(z), 0, hi)
    ensures Placed(s, s', {ino}, parent, k, k + 1)
  {
  }

  /** Marking an inode and checking it. */
  lemma MarkedApart(s: State, s1: State, s2: State, ino: nat, hi: nat)
    requires Placed(s, s1, {}, OfInode(0), 0, 0) && Placed(s1, s2, {ino}, OfInode(ino), 0, hi) && ino !in s.inodeMap
    ensures Apart(s, s2)
  {
  }

  // ----- the dot entries of the directory being checked

  /** The dot entries in the zones accepted for a directory have been come across. */
  ghost predicate DotsKnown(img: Image, claims: Claims, ino: nat, top: Frame) {
    img.inode(ino).mode == DIRECTORY ==>
      && (top.dot || Lacks(img, claims, ino, DOT))
      && (top.dotdot || Lacks(img, claims, ino, DOTDOT))
  }

  lemma DotsAtFirst(img: Image, s: State, ino: nat, top: Frame)
    requires ZonesInv(img, s) && ino !in s.inodeMap
    ensures DotsKnown(img, s.claims, ino, top)
  {
  }

  /** Zones accepted for other inodes, or as indirect zones, do not matter. */
  lemma DotsKept(img: Image, claims: Claims, claims': Claims, ino: nat, top: Frame, top': Frame)
    requires DotsKnown(img, claims, ino, top) && (top.dot ==> top'.dot) && (top.dotdot ==> top'.dotdot)
    requires forall z | DataOf(claims', ino, z) :: DataOf(claims, ino, z)
    ensures DotsKnown(img, claims', ino, top')
  {
  }

  /** Every entry of a directory zone leads to a marked inode, or to one with no links. */
  ghost predicate ZoneDone(img: Image, inodeMap: set<nat>, z: nat) {
    forall e: nat, i: nat | Names(img, z, e, i) :: i in inodeMap || img.inode(i).nlinks == 0
  }

  /** What a part of the walk may have done between two states. Every directory zone it
      accepted it has checked to the end, along with those in `own`. */
  ghost predicate Walked(img: Image, s: State, s': State, own: set<nat>) {
    && s.inodeMap <= s'.inodeMap && s.dirMap <= s'.dirMap
    && s'.nfreeinode <= s.nfreeinode
    && (forall z | z in s.claims :: z in s'.claims && s'.claims[z] == s.claims[z])
    && s.dirlog <= s'.dirlog
    && (forall z | z in s'.dirlog[|s.dirlog|..] :: ZoneDone(img, s'.inodeMap, z) && (z !in s.claims || z in own))
    && (forall z | z in s'.claims && z !in s.claims && IsDirData(img, s'.claims[z]) :: z in s'.dirlog[|s.dirlog|..])
    && (forall z | z in own :: z in s'.dirlog[|s.dirlog|..])
    && s'.examined == s.examined + MentionsIn(img, s'.dirlog[|s.dirlog|..])
  }

  lemma ZoneDoneMonotone(img: Image, inodeMap: set<nat>, inodeMap': set<nat>, z: nat)
    requires ZoneDone(img, inodeMap, z) && inodeMap <= inodeMap'
    ensures ZoneDone(img, inodeMap', z)
  {
  }

  lemma WalkedRefl(img: Image, s: State)
    ensures Walked(img, s, s, {})
  {
  }

  lemma WalkedTrans(img: Image, s: State, s1: State, s2: State)
    requires Walked(img, s, s1, {}) && Walked(img, s1, s2, {})
    ensures Walked(img, s, s2, {})
  {
    var a, b := s1.dirlog[|s.dirlog|..], s2.dirlog[|s1.dirlog|..];
    assert s2.dirlog[|s.dirlog|..] == a + b;
    MentionsInAppend(img, a, b);
    forall z | z in a + b
      ensures ZoneDone(img, s2.inodeMap, z) && z !in s.claims
    {
      if z in a {
        ZoneDoneMonotone(img, s1.inodeMap, s2.inodeMap, z);
      }
    }
  }

  /** The link counts play no part in `Walked`. */
  lemma WalkedOn(img: Image, s: State, a: State, b: State, s2: State)
    requires Walked(img, s, a, {}) && Walked(img, b, s2, {}) && b == a.(count := b.count)
    ensures Walked(img, s, s2, {})
  {
    assert Walked(img, s, b, {});
    WalkedTrans(img, s, b, s2);
  }

  /** Different zones have different bits. */
  lemma {:induction false} ZoneBitsCount(img: Image, zones: set<nat>)
    requires forall z | z in zones :: img.first <= z
    ensures |set z | z in zones && img.first <= z :: Bit(img, z)| == |zones|
  {
    var bits := set z | z in zones && img.first <= z :: Bit(img, z);
    if zones == {} {
      assert bits == {};
    } else {
      var x :| x in zones;
      ZoneBitsCount(img, zones - {x});
      var rest := set z | z in zones - {x} && img.first <= z :: Bit(img, z);
      assert bits == rest + {Bit(img, x)};
      assert Bit(img, x) !in rest;
    }
  }

  /** At every point of the walk, what is free and what is marked make up the whole. */
  lemma Conservation(img: Image, s: State)
    requires Inv(img, s)
    ensures s.nfreezone + |s.zoneMap| == img.zones - img.first
    ensures s.nfreeinode + |s.inodeMap| == img.ninodes
  {
    ZoneBitsCount(img, s.claims.Keys);
    assert s.zoneMap == set z | z in s.claims.Keys && img.first <= z :: Bit(img, z);
    assert |s.claims| == |s.claims.Keys|;
  }

  // ----- single assignments

  lemma AddToSet(s: set<nat>, x: nat)
    requires x !in s
    ensures |s + {x}| == |s| + 1
  {
  }

  /** No more than `n` inodes have numbers up to `n`. */
  lemma {:induction false} InodeBound(img: Image, n: nat, s: set<nat>)
    requires forall i | i in s :: ROOT_INODE <= i <= n
    ensures |s| <= n
  {
    if n == 0 {
      assert s == {};
    } else {
      InodeBound(img, n - 1, s - {n});
    }
  }

  /** Marking a reachable inode and charging its links. */
  lemma MarkInode(img: Image, s: State, ino: nat)
    requires Inv(img, s) && ino !in s.inodeMap && img.InRange(ino)
    requires Reach(img, ino) && img.inode(ino).nlinks > 0
    ensures
      var s' := s.(nfreeinode := s.nfreeinode - 1, inodeMap := s.inodeMap + {ino},
                   count := s.count[ino := Count(s, ino) - Links(img, ino)]);
      Inv(img, s') && Walked(img, s, s', {}) && 0 <= s'.nfreeinode
  {
    hide ZonesInv, LogInv, PlacesInv, FailedInv, Reach, Under, ZoneBits, Walked, InodesInv, FileCovered;
    MarkInodeInodes(img, s, ino);
    MarkInodeWalked(img, s, ino);
    MarkInodeZones(img, s, ino);
    MarkInodePlaces(img, s, ino);
  }

  lemma MarkInodePlaces(img: Image, s: State, ino: nat)
    requires PlacesInv(img, s) && FailedInv(img, s)
    ensures
      var s' := s.(nfreeinode := s.nfreeinode - 1, inodeMap := s.inodeMap + {ino},
                   count := s.count[ino := Count(s, ino) - Links(img, ino)]);
      PlacesInv(img, s') && FailedInv(img, s')
  {
    hide Used, Wrong, Doubtful;
  }

  lemma MarkInodeInodes(img: Image, s: State, ino: nat)
    requires InodesInv(img, s) && ino !in s.inodeMap && img.InRange(ino)
    requires Reach(img, ino) && img.inode(ino).nlinks > 0
    ensures
      var s' := s.(nfreeinode := s.nfreeinode - 1, inodeMap := s.inodeMap + {ino},
                   count := s.count[ino := Count(s, ino) - Links(img, ino)]);
      InodesInv(img, s') && 0 <= s'.nfreeinode
  {
    hide Reach;
    AddToSet(s.inodeMap, ino);
    InodeBound(img, img.ninodes, s.inodeMap + {ino});
  }

  lemma MarkInodeZones(img: Image, s: State, ino: nat)
    requires ZonesInv(img, s) && LogInv(img, s)
    ensures
      var s' := s.(nfreeinode := s.nfreeinode - 1, inodeMap := s.inodeMap + {ino},
                   count := s.count[ino := Count(s, ino) - Links(img, ino)]);
      ZonesInv(img, s') && LogInv(img, s')
  {
  }

  lemma MarkInodeWalked(img: Image, s: State, ino: nat)
    ensures
      var s' := s.(nfreeinode := s.nfreeinode - 1, inodeMap := s.inodeMap + {ino},
                   count := s.count[ino := Count(s, ino) - Links(img, ino)]);
      Walked(img, s, s', {})
  {
    assert s.dirlog[|s.dirlog|..] == [];
  }

  /** The state after accepting zone `z`, whose number stands at `at`. */
  function Claimed(img: Image, s: State, z: nat, owner: nat, level: nat, at: Spot): State
    requires img.first <= z
  {
    s.(nfreezone := s.nfreezone - 1, zoneMap := s.zoneMap + {Bit(img, z)},
       claims := s.claims[z := Claim(owner, level)], places := s.places[z := at])
  }

  /** The state after refusing zone `z`. */
  function Refused(s: State, z: nat): State {
    s.(refused := s.refused + {z})
  }

  lemma RefuseZone(img: Image, s: State, z: nat)
    requires Inv(img, s) && (!img.InZones(z) || z in s.claims) && Doubtful(img, z)
    ensures Inv(img, Refused(s, z))
  {
    hide InodesInv, LogInv, CountInv, CleanInv, FailedInv, Under, ZoneBits, Used, Doubtful;
    RefusalPlaysNoPart(img, s, z);
    RefuseFailed(img, s, z);
  }

  lemma RefusalPlaysNoPart(img: Image, s: State, z: nat)
    ensures InodesInv(img, Refused(s, z)) == InodesInv(img, s)
    ensures LogInv(img, Refused(s, z)) == LogInv(img, s)
    ensures CountInv(img, Refused(s, z)) == CountInv(img, s)
    ensures CleanInv(img, Refused(s, z)) == CleanInv(img, s)
  {
    hide Reach, FileCovered;
  }

  lemma RefuseFailed(img: Image, s: State, z: nat)
    requires FailedInv(img, s)
    ensures FailedInv(img, Refused(s, z))
  {
    hide Wrong;
    forall i | i in s.failed
      ensures Wrong(img, s.claims, s.refused + {z}, i)
    {
      WrongStays(img, s.claims, s.claims, s.refused, s.refused + {z}, i);
    }
  }

  /** A zone that has been accepted before stands in another place, too. */
  lemma StandsTwice(img: Image, s: State, z: nat, at: Spot)
    requires PlacesInv(img, s) && Used(img, at) && Stored(img, at) == z
    requires forall y | y in s.places :: s.places[y] != at
    requires !img.InZones(z) || z in s.claims
    ensures Doubtful(img, z)
  {
    hide Used;
    if img.InZones(z) {
      assert s.places[z] != at;
      assert Elsewhere(img, at);
    }
  }

  lemma WalkedRefused(img: Image, s: State, z: nat)
    ensures Walked(img, s, Refused(s, z), {})
  {
    assert s.dirlog[|s.dirlog|..] == [];
  }

  function Bit(img: Image, z: nat): nat
    requires img.first <= z
  {
    z - img.first + 1
  }

  lemma ZoneBitsAt(img: Image, claims: map<nat, Claim>, z: nat, c: Claim)
    requires img.first <= z
    ensures z in claims ==> Bit(img, z) in ZoneBits(img, claims)
    ensures ZoneBits(img, claims[z := c]) == ZoneBits(img, claims) + {Bit(img, z)}
  {
    var claims' := claims[z := c];
    forall y: nat | y in claims && img.first <= y
      ensures Bit(img, y) in ZoneBits(img, claims')
    {
      assert y in claims';
    }
  }

  lemma ClaimZoneZones(img: Image, s: State, z: nat, owner: nat, level: nat, at: Spot)
    requires ZonesInv(img, s) && img.InZones(z) && Bit(img, z) !in s.zoneMap
    requires owner in s.inodeMap && Under(img, owner, z, level)
    ensures z !in s.claims && ZonesInv(img, Claimed(img, s, z, owner, level, at))
  {
    hide Under, Reach, ZoneBits, Bit;
    ZoneBitsAt(img, s.claims, z, Claim(owner, level));
    var s' := Claimed(img, s, z, owner, level, at);
    AddToSet(s.claims.Keys, z);
    assert s'.claims.Keys == s.claims.Keys + {z};
  }

  lemma ClaimZonePlaces(img: Image, s: State, z: nat, owner: nat, level: nat, at: Spot)
    requires PlacesInv(img, s) && FailedInv(img, s) && img.first <= z && z !in s.claims && owner !in s.failed
    requires Used(img, at) && Stored(img, at) == z && Started(s.inodeMap, s.claims, at.parent)
    ensures PlacesInv(img, Claimed(img, s, z, owner, level, at)) && FailedInv(img, Claimed(img, s, z, owner, level, at))
  {
    hide Used, Doubtful, Wrong;
    var s' := Claimed(img, s, z, owner, level, at);
    forall i | i in s.failed
      ensures Wrong(img, s'.claims, s.refused, i)
    {
      WrongStays(img, s.claims, s'.claims, s.refused, s.refused, i);
    }
  }

  /** Accepting a zone that is not marked. */
  lemma ClaimZone(img: Image, s: State, z: nat, owner: nat, level: nat, at: Spot)
    requires Inv(img, s) && img.InZones(z) && Bit(img, z) !in s.zoneMap
    requires owner in s.inodeMap && owner !in s.failed && Under(img, owner, z, level)
    requires Used(img, at) && Stored(img, at) == z && Started(s.inodeMap, s.claims, at.parent)
    ensures z !in s.claims && z !in s.places && z !in s.dirlog && Inv(img, Claimed(img, s, z, owner, level, at))
  {
    hide ZonesInv, Under, Reach, Bit, InodesInv, CountInv, CleanInv, FailedInv, Used, Stored, Doubtful;
    ClaimZoneZones(img, s, z, owner, level, at);
    ClaimZonePlaces(img, s, z, owner, level, at);
    CleanGrown(img, s, Claimed(img, s, z, owner, level, at));
    ClaimPlaysNoPart(img, s, z, owner, level, at);
  }

  /** More zones accepted leave clean inodes clean. */
  lemma CleanGrown(img: Image, s: State, s': State)
    requires CleanInv(img, s) && s'.clean == s.clean && s.inodeMap <= s'.inodeMap && Grown(s.claims, s'.claims)
    ensures CleanInv(img, s')
  {
    forall i | i in s.clean && FileCovered(img, s.claims, i)
      ensures FileCovered(img, s'.claims, i)
    {
      FileGrown(img, s.claims, s'.claims, i);
    }
  }

  lemma ClaimPlaysNoPart(img: Image, s: State, z: nat, owner: nat, level: nat, at: Spot)
    requires img.first <= z
    ensures InodesInv(img, Claimed(img, s, z, owner, level, at)) == InodesInv(img, s)
    ensures CountInv(img, Claimed(img, s, z, owner, level, at)) == CountInv(img, s)
  {
  }

  /** A zone accepted and done with: a directory zone has been checked to the end. */
  lemma ClaimedAndWalked(img: Image, s: State, s': State, z: nat, owner: nat, level: nat, at: Spot)
    requires img.first <= z && z !in s.claims
    requires Walked(img, Claimed(img, s, z, owner, level, at), s', if IsDirData(img, Claim(owner, level)) then {z}
              else {})
    ensures Walked(img, s, s', {})
  {
  }

  // ----- the entries of one directory zone

  /** The first `k` entries of zone `z` have been looked at since `s`, and what was found
      through them has been walked. */
  ghost predicate Partial(img: Image, s: State, s': State, z: nat, k: nat) {
    && Mentions(img, z, k) <= s'.examined
    && Walked(img, s, s'.(examined := s'.examined - Mentions(img, z, k)), {})
    && forall e: nat, i: nat | e < k && Names(img, z, e, i) :: i in s'.inodeMap || img.inode(i).nlinks == 0
  }

  lemma PartialStart(img: Image, s: State, z: nat)
    ensures Partial(img, s, s, z, 0)
  {
    assert s.(examined := s.examined - Mentions(img, z, 0)) == s;
    WalkedRefl(img, s);
  }

  /** The state after counting an entry for inode `i`. */
  ghost function Counted(s: State, i: nat): State {
    s.(count := s.count[i := Count(s, i) + 1], examined := s.examined + multiset{i})
  }

  lemma CountEntry(img: Image, s: State, i: nat)
    requires Inv(img, s)
    ensures Inv(img, Counted(s, i))
  {
    hide InodesInv, ZonesInv, LogInv, CleanInv, PlacesInv, FailedInv;
    CountsPlayNoPart(img, s, i);
  }

  lemma CountsPlayNoPart(img: Image, s: State, i: nat)
    ensures InodesInv(img, Counted(s, i)) == InodesInv(img, s)
    ensures ZonesInv(img, Counted(s, i)) == ZonesInv(img, s)
    ensures LogInv(img, Counted(s, i)) == LogInv(img, s)
    ensures CleanInv(img, Counted(s, i)) == CleanInv(img, s)
    ensures PlacesInv(img, Counted(s, i)) == PlacesInv(img, s)
    ensures FailedInv(img, Counted(s, i)) == FailedInv(img, s)
  {
    hide Used, Doubtful, Wrong, FileCovered, Under, Reach, ZoneBits;
  }

  lemma WalkedShift(img: Image, s: State, s': State, m: multiset<nat>)
    requires Walked(img, s, s', {}) && m <= s.examined
    ensures m <= s'.examined
    ensures Walked(img, s.(examined := s.examined - m), s'.(examined := s'.examined - m), {})
  {
  }

  /** The mentions of one more entry. */
  lemma MentionsNext(img: Image, z: nat, k: nat)
    ensures
      Mentions(img, z, k + 1) ==
      Mentions(img, z, k) + if img.InRange(img.entry(z, k).inum) then multiset{img.entry(z, k).inum} else multiset{}
  {
  }

  /** Following an entry that has been counted. */
  lemma WalkedCounted(img: Image, s: State, s1: State, s2: State, m: multiset<nat>, i: nat)
    requires m <= s1.examined && Walked(img, s, s1.(examined := s1.examined - m), {})
    requires Walked(img, Counted(s1, i), s2, {})
    ensures m + multiset{i} <= s2.examined
    ensures Walked(img, s, s2.(examined := s2.examined - (m + multiset{i})), {})
  {
    hide Walked;
    var c, m' := Counted(s1, i), m + multiset{i};
    WalkedShift(img, c, s2, m');
    assert c.examined - m' == s1.examined - m;
    WalkedOn(img, s, s1.(examined := s1.examined - m), c.(examined := c.examined - m'),
        s2.(examined := s2.examined - m'));
  }

  lemma MarkedGrows(img: Image, s: State, s': State)
    requires Walked(img, s, s', {})
    ensures s.inodeMap <= s'.inodeMap
  {
  }

  /** One more entry that is counted, and then followed or not. */
  lemma PartialStep(img: Image, s: State, s1: State, s2: State, z: nat, k: nat)
    requires Partial(img, s, s1, z, k) && k < img.DirEntries()
    requires
      var i := img.entry(z, k).inum;
      && (if img.InRange(i) then Walked(img, Counted(s1, i), s2, {}) else s2 == s1)
      && (Names(img, z, k, i) ==> i in s2.inodeMap || img.inode(i).nlinks == 0)
    ensures Partial(img, s, s2, z, k + 1)
  {
    hide Walked, Mentions;
    var i := img.entry(z, k).inum;
    MentionsNext(img, z, k);
    if img.InRange(i) {
      WalkedCounted(img, s, s1, s2, Mentions(img, z, k), i);
      MarkedGrows(img, Counted(s1, i), s2);
    } else {
      assert Mentions(img, z, k + 1) == Mentions(img, z, k);
    }
    forall e: nat, x: nat | e < k + 1 && Names(img, z, e, x)
      ensures x in s2.inodeMap || img.inode(x).nlinks == 0
    {
      if e == k {
        NamesEntry(img, z, k, x);
      }
    }
  }

  lemma NamesEntry(img: Image, z: nat, e: nat, i: nat)
    requires Names(img, z, e, i)
    ensures i == img.entry(z, e).inum
  {
  }

  /** All entries of an accepted directory zone have been looked at. */
  lemma CloseZone(img: Image, s: State, s': State, z: nat)
    requires Inv(img, s') && Partial(img, s, s', z, img.DirEntries())
    requires z in s.claims && IsDirData(img, s.claims[z]) && z !in s.dirlog
    ensures
      var s'' := s'.(dirlog := s'.dirlog + [z]);
      Inv(img, s'') && Walked(img, s, s'', {z})
  {
    hide InodesInv, ZonesInv, LogInv, CountInv, CleanInv, PlacesInv, FailedInv, Walked, Partial;
    CloseZoneLog(img, s, s', z);
    CloseZoneWalked(img, s, s', z);
    LogPlaysNoPart(img, s', s'.dirlog + [z]);
  }

  lemma LogPlaysNoPart(img: Image, s: State, dirlog: seq<nat>)
    ensures InodesInv(img, s.(dirlog := dirlog)) == InodesInv(img, s)
    ensures ZonesInv(img, s.(dirlog := dirlog)) == ZonesInv(img, s)
    ensures CountInv(img, s.(dirlog := dirlog)) == CountInv(img, s)
    ensures CleanInv(img, s.(dirlog := dirlog)) == CleanInv(img, s)
    ensures PlacesInv(img, s.(dirlog := dirlog)) == PlacesInv(img, s)
    ensures FailedInv(img, s.(dirlog := dirlog)) == FailedInv(img, s)
  {
    hide Used, Doubtful, Wrong, FileCovered, Under, Reach;
  }

  lemma CloseZoneLog(img: Image, s: State, s': State, z: nat)
    requires LogInv(img, s') && Partial(img, s, s', z, img.DirEntries())
    requires z in s.claims && IsDirData(img, s.claims[z]) && z !in s.dirlog
    ensures LogInv(img, s'.(dirlog := s'.dirlog + [z]))
  {
    assert s'.dirlog == s.dirlog + s'.dirlog[|s.dirlog|..];
    assert z !in s'.dirlog;
  }

  lemma CloseZoneWalked(img: Image, s: State, s': State, z: nat)
    requires Partial(img, s, s', z, img.DirEntries()) && z in s.claims
    ensures Walked(img, s, s'.(dirlog := s'.dirlog + [z]), {z})
  {
    PartialDone(img, s, s', z);
    var m := Mentions(img, z, img.DirEntries());
    var s1 := s'.(examined := s'.examined - m);
    assert m <= s'.examined && Walked(img, s, s1, {});
    hide Partial, Mentions, MentionsIn, ZoneDone, Names;
    MentionsOne(img, z);
    OneMoreZone(img, s, s1, s'.(dirlog := s'.dirlog + [z]), z);
  }

  lemma PartialDone(img: Image, s: State, s': State, z: nat)
    requires Partial(img, s, s', z, img.DirEntries())
    ensures ZoneDone(img, s'.inodeMap, z)
  {
    hide Walked, Mentions;
  }

  lemma MentionsOne(img: Image, z: nat)
    ensures MentionsIn(img, [z]) == Mentions(img, z, img.DirEntries())
  {
    hide Mentions;
    assert [z][..0] == [];
    assert MentionsIn(img, []) == multiset{};
  }

  lemma OneMoreZone(img: Image, s: State, s1: State, s2: State, z: nat)
    requires Walked(img, s, s1, {}) && z in s.claims && ZoneDone(img, s1.inodeMap, z)
    requires s2 == s1.(dirlog := s1.dirlog + [z], examined := s1.examined + MentionsIn(img, [z]))
    ensures Walked(img, s, s2, {z})
  {
    hide ZoneDone, MentionsIn;
    var a := s1.dirlog[|s.dirlog|..];
    assert s2.dirlog[|s.dirlog|..] == a + [z];
    MentionsInAppend(img, a, [z]);
  }

  // ----- the walk as a whole

  /** After the walk: the directory zones checked to their end are exactly those accepted,
      each once; all their entries lead to marked inodes, or to ones without links; and the
      entries counted are exactly theirs. */
  ghost predicate Complete(img: Image, s: State) {
    && (forall z :: z in s.dirlog <==> z in s.claims && IsDirData(img, s.claims[z]))
    && (forall a, b | 0 <= a < b < |s.dirlog| :: s.dirlog[a] != s.dirlog[b])
    && (forall z | z in s.dirlog :: ZoneDone(img, s.inodeMap, z))
    && s.examined == MentionsIn(img, s.dirlog)
  }

  lemma WalkComplete(img: Image, s0: State, s: State)
    requires Inv(img, s) && Walked(img, s0, s, {})
    requires s0.claims == map[] && s0.dirlog == [] && s0.examined == multiset{}
    ensures Complete(img, s)
  {
    assert s.dirlog[|s0.dirlog|..] == s.dirlog;
  }

  /** The first `k` entries of a zone that name inode `i`. */
  ghost function Naming(img: Image, z: nat, k: nat, i: nat): set<nat> {
    set e: nat | e < k && img.entry(z, e).inum == i
  }

  lemma NamingNext(img: Image, z: nat, k: nat, i: nat)
    ensures Naming(img, z, 0, i) == {}
    ensures |Naming(img, z, k + 1, i)| == |Naming(img, z, k, i)| + if img.entry(z, k).inum == i then 1 else 0
  {
    assert Naming(img, z, k + 1, i) == Naming(img, z, k, i) + if img.entry(z, k).inum == i then {k} else {};
  }

  /** The entries of one zone that name an inode, counted one by one. */
  lemma {:induction false} MentionsMeans(img: Image, z: nat, k: nat, i: nat)
    requires img.InRange(i)
    ensures Mentions(img, z, k)[i] == |set e: nat | e < k && img.entry(z, e).inum == i|
    ensures MentionsIn(img, [z]) == Mentions(img, z, img.DirEntries())
  {
    assert Naming(img, z, k, i) == set e: nat | e < k && img.entry(z, e).inum == i;
    hide Naming;
    if k > 0 {
      MentionsMeans(img, z, k - 1, i);
      NamingNext(img, z, k - 1, i);
    } else {
      NamingNext(img, z, k, i);
    }
    MentionsOne(img, z);
  }

  /** A link count is reported wrong exactly if the links the inode is charged with are not
      the number of entries that name it, in the directory zones accepted. They are those
      stored, but at most 32767; an unmarked inode is charged none. */
  lemma CountReportsMismatch(img: Image, s: State, i: nat)
    requires Inv(img, s) && Complete(img, s)
    ensures Count(s, i) != 0 <==> MentionsIn(img, s.dirlog)[i] != if i in s.inodeMap then Links(img, i) else 0
    ensures Links(img, i) == if img.inode(i).nlinks <= 32767 then img.inode(i).nlinks else 32767
  {
    assert Count(s, i) == s.examined[i] - if i in s.inodeMap then Links(img, i) else 0;
  }

  /** Directory `i` has an entry for inode `j` in a zone that starts below its size. */
  ghost predicate EdgeBelow(img: Image, i: nat, j: nat) {
    && img.inode(i).mode == DIRECTORY
    && exists z: nat, e: nat, at: nat ::
         UnderAt(img, i, z, 0, at) && z != NO_ZONE && at < img.inode(i).size && Names(img, z, e, j)
  }

  /** The walk after its end: every marked inode has been checked. */
  ghost predicate Judged(s: State) {
    forall i | i in s.inodeMap :: i in s.clean || i in s.failed
  }

  /** An entry of a directory whose check found nothing wrong leads to a marked inode. */
  lemma CleanStep(img: Image, s: State, i: nat, j: nat)
    requires CleanInv(img, s) && Complete(img, s) && i in s.clean && Tracked(img, i)
    requires EdgeBelow(img, i, j) && img.inode(j).nlinks > 0
    ensures j in s.inodeMap
  {
    var z: nat, e: nat, at: nat :|
      UnderAt(img, i, z, 0, at) && z != NO_ZONE && at < img.inode(i).size && Names(img, z, e, j);
    CoveredMeans(img, s.claims, i, z, 0, at);
    assert ZoneDone(img, s.inodeMap, z);
  }

  /** Every inode that the root leads to, through directories whose check found nothing wrong
      and inodes that have links, is marked. */
  lemma {:induction false} CleanWalkMarksReachable(img: Image, s: State, p: seq<nat>)
    requires Inv(img, s) && Complete(img, s) && Judged(s)
    requires img.blocksize % 512 == 0 && ROOT_INODE in s.inodeMap
    requires p != [] && p[0] == ROOT_INODE && forall k: nat | k + 1 < |p| :: EdgeBelow(img, p[k], p[k + 1])
    requires forall i | i in p :: img.inode(i).nlinks > 0
    requires forall i | i in p[..|p| - 1] :: i !in s.failed
    ensures p[|p| - 1] in s.inodeMap
  {
    if |p| > 1 {
      var q := p[..|p| - 1];
      assert forall i | i in q[..|q| - 1] :: i in q;
      forall k: nat | k + 1 < |q|
        ensures EdgeBelow(img, q[k], q[k + 1])
      {
        assert EdgeBelow(img, p[k], p[k + 1]);
      }
      CleanWalkMarksReachable(img, s, q);
      var k := |p| - 2;
      assert p[k] in q && EdgeBelow(img, p[k], p[k + 1]);
      CleanStep(img, s, p[k], p[k + 1]);
    }
  }
}
