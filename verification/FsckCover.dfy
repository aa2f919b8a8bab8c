/** Which zones of a file a check without errors has accepted: all that start below its size. */
module FsckCover {
  import opened Common
  import opened Disk
  import opened FsckImage

  /** The inode and the level for which a zone was accepted. */
  datatype Claim = Claim(owner: nat, level: nat)

  type Claims = map<nat, Claim>

  /** Positions are tracked where whole chunks of zone numbers fill a zone. */
  ghost predicate Tracked(img: Image, ino: nat) {
    img.blocksize % 512 == 0 && img.inode(ino).mode != SYMBOLIC_LINK
  }

  ghost predicate HasZones(img: Image, ino: nat) {
    img.inode(ino).mode in {REGULAR, DIRECTORY, NAMED_PIPE, UNIX_SOCKET}
  }

  /** What the check of an inode demands of its type, size and zone numbers alone. */
  ghost predicate WellTyped(img: Image, ino: nat) {
    var ip := img.inode(ino);
    && ip.mode != BAD
    && (ip.mode in {BLOCK_SPECIAL, CHAR_SPECIAL} ==>
        ip.zone[0] != 0 && forall i | 1 <= i < V2_NR_TZONES :: ip.zone[i] == NO_ZONE)
    && (ip.mode == SYMBOLIC_LINK ==> 0 < ip.size <= img.blocksize)
  }

  /** Something is wrong with the zones of an inode: one of them has been refused, or it is a
      symbolic link, whose check is taken the wrong way around. */
  ghost predicate Faulted(img: Image, refused: set<nat>, ino: nat) {
    || img.inode(ino).mode == SYMBOLIC_LINK
    || exists z, level: nat :: z in refused && z != NO_ZONE && Under(img, ino, z, level)
  }

  lemma FaultedGrown(img: Image, refused: set<nat>, refused': set<nat>, ino: nat)
    requires refused <= refused' && Faulted(img, refused, ino)
    ensures Faulted(img, refused', ino)
  {
  }

  /** Where the zones of a level of indirection start in a file. */
  function Start(img: Image, level: nat): nat {
    if level == 0 then 0
    else if level == 1 then V2_NR_DZONES * img.Jump(0)
    else Start(img, level - 1) + img.Jump(level - 1)
  }

  /** Zone `z` stands at this level, and starts at offset `at` of the file. */
  ghost predicate UnderAt(img: Image, ino: nat, z: nat, level: nat, at: nat)
    decreases 3 - level
  {
    var zone := img.inode(ino).zone;
    || (level == 0 && exists k: nat :: k < V2_NR_DZONES && zone[k] == z && at == k * img.Jump(0))
    || (1 <= level <= 3 && zone[V2_NR_DZONES + level - 1] == z && at == Start(img, level))
    || (level < 3 && exists p: nat, k: nat, start: nat ::
          EntryAt(img, p, k, z, level, start, at) && UnderAt(img, ino, p, level + 1, start))
  }

  /** Zone `z`, at this level and offset, is entry `k` of zone `p`, which starts at `start`. */
  ghost predicate EntryAt(img: Image, p: nat, k: nat, z: nat, level: nat, start: nat, at: nat) {
    p != NO_ZONE && k < img.IndirectsRead() && img.ind(p, k) == z && at == start + k * img.Jump(level)
  }

  /** The zones under zone `z`, which starts at `at`, that start below the size are accepted,
      and so on down. */
  ghost predicate Covered(img: Image, claims: Claims, ino: nat, z: nat, level: nat, at: nat)
    decreases level
  {
    level == 0 ||
    forall k: nat | k < img.IndirectsRead() && img.ind(z, k) != NO_ZONE && Below(img, ino, level - 1, at, k) ::
      Accepted(claims, ino, img.ind(z, k), level - 1)
      && Covered(img, claims, ino, img.ind(z, k), level - 1, at + k * img.Jump(level - 1))
  }

  ghost predicate Accepted(claims: Claims, ino: nat, z: nat, level: nat) {
    z in claims && claims[z] == Claim(ino, level)
  }

  /** The `k`th zone at this level, from `at` on, starts below the size. */
  ghost predicate Below(img: Image, ino: nat, level: nat, at: nat, k: nat) {
    at + k * img.Jump(level) < img.inode(ino).size
  }

  /** The first `n` zones of a list that starts at `at` are accepted, and what is under them. */
  ghost predicate ListCovered(img: Image, claims: Claims, ino: nat, zlist: seq<nat>, level: nat, at: nat, n: nat)
    requires n <= |zlist|
  {
    forall k | 0 <= k < n && zlist[k] != NO_ZONE ::
      Accepted(claims, ino, zlist[k], level) && Covered(img, claims, ino, zlist[k], level, at + k * img.Jump(level))
  }

  /** All zones of the file that start below its size are accepted. */
  ghost predicate FileCovered(img: Image, claims: Claims, ino: nat) {
    var zone := img.inode(ino).zone;
    && ListCovered(img, claims, ino, zone[..V2_NR_DZONES], 0, 0, V2_NR_DZONES)
    && forall level | 1 <= level <= 3 ::
         ListCovered(img, claims, ino, [zone[V2_NR_DZONES + level - 1]], level, Start(img, level), 1)
  }

  ghost predicate Grown(claims: Claims, claims': Claims) {
    forall z | z in claims :: z in claims' && claims'[z] == claims[z]
  }

  lemma {:induction false} CoveredGrown(img: Image, claims: Claims, claims': Claims, ino: nat, z: nat, level: nat,
        at: nat)
    requires Grown(claims, claims') && Covered(img, claims, ino, z, level, at)
    ensures Covered(img, claims', ino, z, level, at)
    decreases level
  {
    if level > 0 {
      forall k: nat | k < img.IndirectsRead() && img.ind(z, k) != NO_ZONE && Below(img, ino, level - 1, at, k)
        ensures Accepted(claims', ino, img.ind(z, k), level - 1)
        ensures Covered(img, claims', ino, img.ind(z, k), level - 1, at + k * img.Jump(level - 1))
      {
        CoveredGrown(img, claims, claims', ino, img.ind(z, k), level - 1, at + k * img.Jump(level - 1));
      }
    }
  }

  lemma ListGrown(img: Image, claims: Claims, claims': Claims, ino: nat, zlist: seq<nat>, level: nat, at: nat, n: nat)
    requires n <= |zlist| && Grown(claims, claims') && ListCovered(img, claims, ino, zlist, level, at, n)
    ensures ListCovered(img, claims', ino, zlist, level, at, n)
  {
    forall k | 0 <= k < n && zlist[k] != NO_ZONE
      ensures Covered(img, claims', ino, zlist[k], level, at + k * img.Jump(level))
    {
      CoveredGrown(img, claims, claims', ino, zlist[k], level, at + k * img.Jump(level));
    }
  }

  lemma FileGrown(img: Image, claims: Claims, claims': Claims, ino: nat)
    requires Grown(claims, claims') && FileCovered(img, claims, ino)
    ensures FileCovered(img, claims', ino)
  {
    var zone := img.inode(ino).zone;
    ListGrown(img, claims, claims', ino, zone[..V2_NR_DZONES], 0, 0, V2_NR_DZONES);
    forall level | 1 <= level <= 3
      ensures ListCovered(img, claims', ino, [zone[V2_NR_DZONES + level - 1]], level, Start(img, level), 1)
    {
      ListGrown(img, claims, claims', ino, [zone[V2_NR_DZONES + level - 1]], level, Start(img, level), 1);
    }
  }

  /** In a covered file, every zone that starts below the size is accepted, at every level. */
  lemma {:induction false} CoveredMeans(img: Image, claims: Claims, ino: nat, z: nat, level: nat, at: nat)
    requires FileCovered(img, claims, ino) && UnderAt(img, ino, z, level, at)
    requires z != NO_ZONE && at < img.inode(ino).size
    ensures Accepted(claims, ino, z, level) && Covered(img, claims, ino, z, level, at)
    decreases 3 - level
  {
    hide Start, FileCovered, Covered, Accepted, EntryAt;
    var zone := img.inode(ino).zone;
    if level == 0 && exists k: nat :: k < V2_NR_DZONES && zone[k] == z && at == k * img.Jump(0) {
      var k: nat :| k < V2_NR_DZONES && zone[k] == z && at == k * img.Jump(0);
      DirectCovered(img, claims, ino, k);
    } else if 1 <= level <= 3 && zone[V2_NR_DZONES + level - 1] == z && at == Start(img, level) {
      HeadCovered(img, claims, ino, level);
    } else {
      var p: nat, k: nat, start: nat :| EntryAt(img, p, k, z, level, start, at)
          && UnderAt(img, ino, p, level + 1, start);
      EntryStart(img, p, k, z, level, start, at);
      CoveredMeans(img, claims, ino, p, level + 1, start);
      EntryCovered(img, claims, ino, p, k, z, level, start, at);
    }
  }

  lemma EntryStart(img: Image, p: nat, k: nat, z: nat, level: nat, start: nat, at: nat)
    requires EntryAt(img, p, k, z, level, start, at)
    ensures p != NO_ZONE && start <= at
  {
    assert k * img.Jump(level) >= 0;
  }

  lemma EntryCovered(img: Image, claims: Claims, ino: nat, p: nat, k: nat, z: nat, level: nat, start: nat, at: nat)
    requires EntryAt(img, p, k, z, level, start, at) && Covered(img, claims, ino, p, level + 1, start)
    requires z != NO_ZONE && at < img.inode(ino).size
    ensures Accepted(claims, ino, z, level) && Covered(img, claims, ino, z, level, at)
  {
    assert Below(img, ino, level, start, k);
  }

  lemma DirectCovered(img: Image, claims: Claims, ino: nat, k: nat)
    requires FileCovered(img, claims, ino) && k < V2_NR_DZONES
    ensures
      var z := img.inode(ino).zone[k];
      z != NO_ZONE ==> Accepted(claims, ino, z, 0) && Covered(img, claims, ino, z, 0, k * img.Jump(0))
  {
    assert img.inode(ino).zone[..V2_NR_DZONES][k] == img.inode(ino).zone[k];
  }

  lemma HeadCovered(img: Image, claims: Claims, ino: nat, level: nat)
    requires FileCovered(img, claims, ino) && 1 <= level <= 3
    ensures
      var z := img.inode(ino).zone[V2_NR_DZONES + level - 1];
      z != NO_ZONE ==> Accepted(claims, ino, z, level) && Covered(img, claims, ino, z, level, Start(img, level))
  {
    var list := [img.inode(ino).zone[V2_NR_DZONES + level - 1]];
    assert ListCovered(img, claims, ino, list, level, Start(img, level), 1);
    assert list[0] == img.inode(ino).zone[V2_NR_DZONES + level - 1];
  }

  // ----- why an inode is reported

  /** Zone `z` has been accepted as a data zone of inode `ino`. */
  ghost predicate DataOf(claims: Claims, ino: nat, z: nat) {
    Accepted(claims, ino, z, 0)
  }

  /** No accepted zone of a directory has an entry of this name. */
  ghost predicate Lacks(img: Image, claims: Claims, ino: nat, name: seq<byte>) {
    forall z: nat, e: nat | DataOf(claims, ino, z) && e < img.DirEntries() :: !EntryNamed(img, z, e, name)
  }

  /** A directory without one of its dot entries, in all of its zones below the size. */
  ghost predicate Bare(img: Image, claims: Claims, ino: nat) {
    && img.inode(ino).mode == DIRECTORY
    && (Lacks(img, claims, ino, DOT) || Lacks(img, claims, ino, DOTDOT))
    && (Tracked(img, ino) ==> FileCovered(img, claims, ino))
  }

  /** What the check of an inode may find wrong. */
  ghost predicate Wrong(img: Image, claims: Claims, refused: set<nat>, ino: nat) {
    !WellTyped(img, ino) || Faulted(img, refused, ino) || Bare(img, claims, ino)
  }

  /** It stays wrong, as long as no zone is accepted for it. */
  lemma WrongStays(img: Image, claims: Claims, claims': Claims, refused: set<nat>, refused': set<nat>, ino: nat)
    requires Wrong(img, claims, refused, ino) && Grown(claims, claims') && refused <= refused'
    requires forall z | z in claims' && z !in claims :: claims'[z].owner != ino
    ensures Wrong(img, claims', refused', ino)
  {
    hide WellTyped, FileCovered;
    if Faulted(img, refused, ino) {
      FaultedGrown(img, refused, refused', ino);
    } else if Bare(img, claims, ino) {
      forall z: nat | DataOf(claims', ino, z)
        ensures DataOf(claims, ino, z)
      {
      }
      if FileCovered(img, claims, ino) {
        FileGrown(img, claims, claims', ino);
      }
    }
  }

  // ----- covering a file piece by piece

  /** One more zone of a list. */
  lemma CoverNext(img: Image, claims: Claims, claims': Claims, ino: nat, zlist: seq<nat>, level: nat, at: nat, k: nat)
    requires k < |zlist| && Grown(claims, claims') && ListCovered(img, claims, ino, zlist, level, at, k)
    requires zlist[k] != NO_ZONE ==>
               Accepted(claims', ino, zlist[k], level)
                   && Covered(img, claims', ino, zlist[k], level, at + k * img.Jump(level))
    ensures ListCovered(img, claims', ino, zlist, level, at, k + 1)
  {
    ListGrown(img, claims, claims', ino, zlist, level, at, k);
  }

  /** The first `n` entries of an indirect zone that starts at `at`. */
  ghost predicate EntriesCovered(img: Image, claims: Claims, ino: nat, z: nat, level: nat, at: nat, n: nat) {
    forall k: nat | k < n && img.ind(z, k) != NO_ZONE ::
      Accepted(claims, ino, img.ind(z, k), level)
          && Covered(img, claims, ino, img.ind(z, k), level, at + k * img.Jump(level))
  }

  lemma NoEntries(img: Image, claims: Claims, ino: nat, z: nat, level: nat, at: nat)
    ensures EntriesCovered(img, claims, ino, z, level, at, 0)
  {
  }

  lemma EntriesGrown(img: Image, claims: Claims, claims': Claims, ino: nat, z: nat, level: nat, at: nat, n: nat)
    requires Grown(claims, claims') && EntriesCovered(img, claims, ino, z, level, at, n)
    ensures EntriesCovered(img, claims', ino, z, level, at, n)
  {
    forall k: nat | k < n && img.ind(z, k) != NO_ZONE
      ensures Covered(img, claims', ino, img.ind(z, k), level, at + k * img.Jump(level))
    {
      CoveredGrown(img, claims, claims', ino, img.ind(z, k), level, at + k * img.Jump(level));
    }
  }

  /** One more chunk of an indirect zone. */
  lemma ChunkCovered(img: Image, claims: Claims, claims': Claims, ino: nat, z: nat, level: nat, at: nat, n: nat,
        chunk: seq<nat>)
    requires Grown(claims, claims') && EntriesCovered(img, claims, ino, z, level, at, n)
    requires forall j: nat | j < |chunk| :: chunk[j] == img.ind(z, n + j)
    requires ListCovered(img, claims', ino, chunk, level, at + n * img.Jump(level), |chunk|)
    ensures EntriesCovered(img, claims', ino, z, level, at, n + |chunk|)
  {
    EntriesGrown(img, claims, claims', ino, z, level, at, n);
    forall k: nat | n <= k < n + |chunk| && img.ind(z, k) != NO_ZONE
      ensures Accepted(claims', ino, img.ind(z, k), level)
      ensures Covered(img, claims', ino, img.ind(z, k), level, at + k * img.Jump(level))
    {
      var j: nat := k - n;
      assert chunk[j] == img.ind(z, n + j);
      Split(n, j, img.Jump(level));
    }
  }

  lemma Split(n: nat, j: nat, d: nat)
    ensures (n + j) * d == n * d + j * d
  {
  }

  /** All entries of an indirect zone that start below the size. */
  lemma EntriesCover(img: Image, claims: Claims, ino: nat, z: nat, level: nat, at: nat, n: nat)
    requires EntriesCovered(img, claims, ino, z, level, at, n)
    requires n == img.IndirectsRead() || img.inode(ino).size <= at + n * img.Jump(level)
    ensures Covered(img, claims, ino, z, level + 1, at)
  {
    forall k: nat | k < img.IndirectsRead() && Below(img, ino, level, at, k)
      ensures k < n
    {
      if n <= k {
        MulOrder(n, k, img.Jump(level));
      }
    }
  }

  /** The direct zones of a file, and the levels of indirection below `level`. */
  ghost predicate PartCovered(img: Image, claims: Claims, ino: nat, level: nat)
    requires level <= 4
  {
    var zone := img.inode(ino).zone;
    && ListCovered(img, claims, ino, zone[..V2_NR_DZONES], 0, 0, V2_NR_DZONES)
    && forall l | 1 <= l < level ::
         ListCovered(img, claims, ino, [zone[V2_NR_DZONES + l - 1]], l, Start(img, l), 1)
  }

  lemma PartNext(img: Image, claims: Claims, claims': Claims, ino: nat, level: nat)
    requires 1 <= level <= 3 && Grown(claims, claims') && PartCovered(img, claims, ino, level)
    requires ListCovered(img, claims', ino, [img.inode(ino).zone[V2_NR_DZONES + level - 1]], level,
              Start(img, level), 1)
    ensures PartCovered(img, claims', ino, level + 1)
  {
    var zone := img.inode(ino).zone;
    ListGrown(img, claims, claims', ino, zone[..V2_NR_DZONES], 0, 0, V2_NR_DZONES);
    forall l | 1 <= l < level
      ensures ListCovered(img, claims', ino, [zone[V2_NR_DZONES + l - 1]], l, Start(img, l), 1)
    {
      ListGrown(img, claims, claims', ino, [zone[V2_NR_DZONES + l - 1]], l, Start(img, l), 1);
    }
  }

  lemma PartIsFile(img: Image, claims: Claims, ino: nat)
    ensures PartCovered(img, claims, ino, 4) <==> FileCovered(img, claims, ino)
  {
  }
}
