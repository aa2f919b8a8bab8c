/** The offsets of the checker in bytes: where in its file a zone stands, and what it is to have
    accepted all zones below the size. `n` zone numbers fill an indirect zone, and a zone is `s`
    bytes long. */
module FsckOffsets {
  import opened Common
  import opened Disk
  import opened FsckImage
  import opened FsckCover

  /** What one entry of a zone list stands for, in bytes: a zone, or as many zones as an
      indirect zone of that level leads to. */
  lemma JumpMeans(img: Image, n: nat, s: nat)
    requires n == img.blocksize / 4 && s == img.blocksize * Pow2(img.scale)
    ensures img.Jump(0) == s && img.Jump(1) == n * s && img.Jump(2) == (n * n) * s && img.Jump(3) == (n * n * n) * s
    ensures Start(img, 1) == 7 * s && Start(img, 2) == (7 + n) * s && Start(img, 3) == (7 + n + n * n) * s
  {
    hide Pow2;
    Times(n, s);
    assert img.Jump(0) == s;
    assert img.Jump(1) == s * n;
    assert img.Jump(2) == img.Jump(1) * n;
    assert img.Jump(3) == img.Jump(2) * n;
    assert Start(img, 1) == 7 * s;
    assert Start(img, 2) == Start(img, 1) + img.Jump(1);
    assert Start(img, 3) == Start(img, 2) + img.Jump(2);
  }

  lemma Times(n: nat, s: nat)
    ensures s * n == n * s && (n * s) * n == (n * n) * s && ((n * n) * s) * n == (n * n * n) * s
    ensures 7 * s + n * s == (7 + n) * s && (7 + n) * s + (n * n) * s == (7 + n + n * n) * s
  {
    assert ((n * n) * s) * n == (n * n) * (s * n) == (n * n) * (n * s) == (n * n * n) * s;
  }

  /** A zone that holds directory entries is full of them; so is a block of zone numbers, as far
      as that is whole chunks of 128. */
  lemma EntriesFill(img: Image)
    ensures img.blocksize % 64 == 0 ==> img.DirEntries() * 64 == img.blocksize * Pow2(img.scale)
    ensures img.blocksize % 512 == 0 && 0 < img.blocksize ==> img.IndirectsRead() * 4 == img.blocksize
    ensures img.DirEntries() == Pow2(img.scale) * (img.blocksize / 64)
    ensures img.IndirectsRead() == if img.blocksize / 4 < 128 then 128 else img.blocksize / 4 / 128 * 128
  {
    if img.blocksize % 64 == 0 {
      var q := img.blocksize / 64;
      assert (Pow2(img.scale) * q) * 64 == (q * 64) * Pow2(img.scale);
    }
  }

  // ----- coverage by offsets

  /** Indirect zones hold `n` zone numbers, all of which are read; a zone is `s` bytes long. */
  ghost predicate Units(img: Image, n: nat, s: nat) {
    && img.Valid() && img.blocksize % 512 == 0
    && n == img.blocksize / 4 && s == img.blocksize * Pow2(img.scale)
  }

  lemma AllRead(img: Image, n: nat, s: nat)
    requires Units(img, n, s)
    ensures img.IndirectsRead() == n
  {
  }

  /** Zone `a` of a file, counted in zones, starts below its size. */
  ghost predicate Begins(img: Image, ino: nat, a: nat, s: nat) {
    a * s < img.inode(ino).size
  }

  /** The data zones under the indirect zone `z`, which are the `a`th of the file and on. */
  ghost predicate Single(img: Image, claims: Claims, ino: nat, z: nat, a: nat, n: nat, s: nat) {
    forall j: nat | j < n && img.ind(z, j) != 0 && Begins(img, ino, a + j, s) ::
      Accepted(claims, ino, img.ind(z, j), 0)
  }

  ghost predicate Double(img: Image, claims: Claims, ino: nat, z: nat, a: nat, n: nat, s: nat) {
    forall i: nat | i < n && img.ind(z, i) != 0 && Begins(img, ino, a + i * n, s) ::
      Accepted(claims, ino, img.ind(z, i), 1) && Single(img, claims, ino, img.ind(z, i), a + i * n, n, s)
  }

  ghost predicate Triple(img: Image, claims: Claims, ino: nat, z: nat, a: nat, n: nat, s: nat) {
    forall h: nat | h < n && img.ind(z, h) != 0 && Begins(img, ino, a + h * (n * n), s) ::
      Accepted(claims, ino, img.ind(z, h), 2) && Double(img, claims, ino, img.ind(z, h), a + h * (n * n), n, s)
  }

  lemma Offset(a: nat, k: nat, m: nat, s: nat)
    ensures a * s + k * (m * s) == (a + k * m) * s
  {
  }

  lemma BelowIs(img: Image, ino: nat, level: nat, a: nat, k: nat, m: nat, s: nat)
    requires img.Jump(level) == m * s
    ensures a * s + k * img.Jump(level) == (a + k * m) * s
    ensures Below(img, ino, level, a * s, k) <==> Begins(img, ino, a + k * m, s)
  {
    Offset(a, k, m, s);
  }

  lemma CoveredSingle(img: Image, claims: Claims, ino: nat, z: nat, a: nat, n: nat, s: nat)
    requires Units(img, n, s)
    ensures Covered(img, claims, ino, z, 1, a * s) <==> Single(img, claims, ino, z, a, n, s)
  {
    AllRead(img, n, s);
    JumpMeans(img, n, s);
    forall k: nat
      ensures Below(img, ino, 0, a * s, k) <==> Begins(img, ino, a + k, s)
    {
      BelowIs(img, ino, 0, a, k, 1, s);
    }
    hide Below, Begins, Accepted, Units;
    assert forall w, at: nat :: Covered(img, claims, ino, w, 0, at);
  }

  lemma CoveredDouble(img: Image, claims: Claims, ino: nat, z: nat, a: nat, n: nat, s: nat)
    requires Units(img, n, s)
    ensures Covered(img, claims, ino, z, 2, a * s) <==> Double(img, claims, ino, z, a, n, s)
  {
    AllRead(img, n, s);
    JumpMeans(img, n, s);
    forall k: nat
      ensures Below(img, ino, 1, a * s, k) <==> Begins(img, ino, a + k * n, s)
      ensures Covered(img, claims, ino, img.ind(z, k), 1, a * s + k * img.Jump(1)) <==>
              Single(img, claims, ino, img.ind(z, k), a + k * n, n, s)
    {
      BelowIs(img, ino, 1, a, k, n, s);
      CoveredSingle(img, claims, ino, img.ind(z, k), a + k * n, n, s);
    }
    hide Below, Begins, Accepted, Units, Single;
  }

  lemma CoveredTriple(img: Image, claims: Claims, ino: nat, z: nat, a: nat, n: nat, s: nat)
    requires Units(img, n, s)
    ensures Covered(img, claims, ino, z, 3, a * s) <==> Triple(img, claims, ino, z, a, n, s)
  {
    AllRead(img, n, s);
    JumpMeans(img, n, s);
    forall k: nat
      ensures Below(img, ino, 2, a * s, k) <==> Begins(img, ino, a + k * (n * n), s)
      ensures Covered(img, claims, ino, img.ind(z, k), 2, a * s + k * img.Jump(2)) <==>
              Double(img, claims, ino, img.ind(z, k), a + k * (n * n), n, s)
    {
      BelowIs(img, ino, 2, a, k, n * n, s);
      CoveredDouble(img, claims, ino, img.ind(z, k), a + k * (n * n), n, s);
    }
    hide Below, Begins, Accepted, Units, Double;
  }

  /** Coverage of a file, list by list: all its own zone numbers, and whatever begins below its
      size under the indirect ones. */
  lemma FileCoveredMeans(img: Image, claims: Claims, ino: nat, n: nat, s: nat)
    requires Units(img, n, s)
    ensures
      var zone := img.inode(ino).zone;
      FileCovered(img, claims, ino) <==>
      && (forall k | 0 <= k < 7 && zone[k] != 0 :: Accepted(claims, ino, zone[k], 0))
      && (zone[7] != 0 ==> Accepted(claims, ino, zone[7], 1) && Single(img, claims, ino, zone[7], 7, n, s))
      && (zone[8] != 0 ==> Accepted(claims, ino, zone[8], 2) && Double(img, claims, ino, zone[8], 7 + n, n, s))
      && (zone[9] != 0 ==> Accepted(claims, ino, zone[9], 3) && Triple(img, claims, ino, zone[9], 7 + n + n * n, n, s))
  {
    hide Single, Double, Triple, Accepted, Units, Start, ListCovered, Covered, FileCovered;
    FileLists(img, claims, ino);
    DirectList(img, claims, ino);
    HeadCover(img, claims, ino, 1, 7, n, s);
    HeadCover(img, claims, ino, 2, 7 + n, n, s);
    HeadCover(img, claims, ino, 3, 7 + n + n * n, n, s);
  }

  lemma HeadCover(img: Image, claims: Claims, ino: nat, level: nat, a: nat, n: nat, s: nat)
    requires Units(img, n, s) && 1 <= level <= 3
    requires a == (if level == 1 then 7 else if level == 2 then 7 + n else 7 + n + n * n)
    ensures
      var z := img.inode(ino).zone[7 + level - 1];
      ListCovered(img, claims, ino, [z], level, Start(img, level), 1) <==>
      (z != 0 ==>
         Accepted(claims, ino, z, level)
         && (level == 1 ==> Single(img, claims, ino, z, a, n, s))
         && (level == 2 ==> Double(img, claims, ino, z, a, n, s))
         && (level == 3 ==> Triple(img, claims, ino, z, a, n, s)))
  {
    var z := img.inode(ino).zone[7 + level - 1];
    JumpMeans(img, n, s);
    assert Start(img, level) == a * s;
    hide Single, Double, Triple, Accepted, Units, Start, ListCovered, Covered;
    HeadList(img, claims, ino, level);
    if level == 1 {
      CoveredSingle(img, claims, ino, z, a, n, s);
    } else if level == 2 {
      CoveredDouble(img, claims, ino, z, a, n, s);
    } else {
      CoveredTriple(img, claims, ino, z, a, n, s);
    }
  }

  lemma FileLists(img: Image, claims: Claims, ino: nat)
    ensures
      var zone := img.inode(ino).zone;
      FileCovered(img, claims, ino) <==>
      && ListCovered(img, claims, ino, zone[..V2_NR_DZONES], 0, 0, V2_NR_DZONES)
      && ListCovered(img, claims, ino, [zone[7]], 1, Start(img, 1), 1)
      && ListCovered(img, claims, ino, [zone[8]], 2, Start(img, 2), 1)
      && ListCovered(img, claims, ino, [zone[9]], 3, Start(img, 3), 1)
  {
    hide ListCovered, Start;
  }

  lemma DirectList(img: Image, claims: Claims, ino: nat)
    ensures
      var zone := img.inode(ino).zone;
      ListCovered(img, claims, ino, zone[..V2_NR_DZONES], 0, 0, V2_NR_DZONES) <==>
      forall k | 0 <= k < 7 && zone[k] != 0 :: Accepted(claims, ino, zone[k], 0)
  {
    var zone := img.inode(ino).zone;
    assert forall k | 0 <= k < 7 :: zone[..V2_NR_DZONES][k] == zone[k];
    assert forall w, at: nat :: Covered(img, claims, ino, w, 0, at);
  }

  lemma HeadList(img: Image, claims: Claims, ino: nat, level: nat)
    requires 1 <= level <= 3
    ensures
      var z := img.inode(ino).zone[V2_NR_DZONES + level - 1];
      ListCovered(img, claims, ino, [z], level, Start(img, level), 1) <==>
      (z != 0 ==> Accepted(claims, ino, z, level) && Covered(img, claims, ino, z, level, Start(img, level)))
  {
    var z := img.inode(ino).zone[V2_NR_DZONES + level - 1];
    assert [z][0] == z;
  }

  /** In a covered file every data zone that begins below the size has been accepted for it. The
      `k`th zone begins at byte `k * s`: the first seven stand in the inode, then come those
      that the eighth zone number leads to, those that the ninth does, and those of the tenth. */
  lemma CoveredByOffset(img: Image, claims: Claims, ino: nat)
    requires FileCovered(img, claims, ino) && img.Valid() && img.blocksize % 512 == 0
    ensures
      var n, s := img.blocksize / 4, img.blocksize * Pow2(img.scale);
      var zone, size := img.inode(ino).zone, img.inode(ino).size;
      && (forall k | 0 <= k < 7 && zone[k] != 0 :: zone[k] in claims && claims[zone[k]] == Claim(ino, 0))
      && (zone[7] != 0 ==>
            forall j: nat | j < n && img.ind(zone[7], j) != 0 && (7 + j) * s < size ::
              img.ind(zone[7], j) in claims && claims[img.ind(zone[7], j)] == Claim(ino, 0))
      && (zone[8] != 0 ==>
            forall i: nat, j: nat | i < n && j < n && img.ind(zone[8], i) != 0 && img.ind(img.ind(zone[8], i), j) != 0
                && (7 + n + i * n + j) * s < size ::
              var z := img.ind(img.ind(zone[8], i), j);
              z in claims && claims[z] == Claim(ino, 0))
      && (zone[9] != 0 ==>
            forall h: nat, i: nat, j: nat | h < n && i < n && j < n
                && img.ind(zone[9], h) != 0 && img.ind(img.ind(zone[9], h), i) != 0
                && img.ind(img.ind(img.ind(zone[9], h), i), j) != 0
                && (7 + n + n * n + (h * n + i) * n + j) * s < size ::
              var z := img.ind(img.ind(img.ind(zone[9], h), i), j);
              z in claims && claims[z] == Claim(ino, 0))
  {
    var n, s := img.blocksize / 4, img.blocksize * Pow2(img.scale);
    var zone, size := img.inode(ino).zone, img.inode(ino).size;
    FileCoveredMeans(img, claims, ino, n, s);
    hide FileCovered, Pow2;
    if zone[8] != 0 {
      forall i: nat, j: nat | i < n && j < n && img.ind(zone[8], i) != 0 && img.ind(img.ind(zone[8], i), j) != 0
          && (7 + n + i * n + j) * s < size
        ensures Accepted(claims, ino, img.ind(img.ind(zone[8], i), j), 0)
      {
        DoubleAt(img, claims, ino, zone[8], 7 + n, n, s, i, j);
      }
    }
    if zone[9] != 0 {
      forall h: nat, i: nat, j: nat | h < n && i < n && j < n
          && img.ind(zone[9], h) != 0 && img.ind(img.ind(zone[9], h), i) != 0
          && img.ind(img.ind(img.ind(zone[9], h), i), j) != 0
          && (7 + n + n * n + (h * n + i) * n + j) * s < size
        ensures Accepted(claims, ino, img.ind(img.ind(img.ind(zone[9], h), i), j), 0)
      {
        TripleAt(img, claims, ino, zone[9], 7 + n + n * n, n, s, h, i, j);
      }
    }
  }

  lemma DoubleAt(img: Image, claims: Claims, ino: nat, z: nat, a: nat, n: nat, s: nat, i: nat, j: nat)
    requires Double(img, claims, ino, z, a, n, s) && i < n && j < n
    requires img.ind(z, i) != 0 && img.ind(img.ind(z, i), j) != 0 && (a + i * n + j) * s < img.inode(ino).size
    ensures Accepted(claims, ino, img.ind(img.ind(z, i), j), 0)
  {
    MulAtMost(a + i * n, a + i * n + j, s);
    assert Begins(img, ino, a + i * n, s) && Begins(img, ino, a + i * n + j, s);
  }

  lemma TripleAt(img: Image, claims: Claims, ino: nat, z: nat, a: nat, n: nat, s: nat, h: nat, i: nat, j: nat)
    requires Triple(img, claims, ino, z, a, n, s) && h < n && i < n && j < n
    requires img.ind(z, h) != 0 && img.ind(img.ind(z, h), i) != 0 && img.ind(img.ind(img.ind(z, h), i), j) != 0
    requires (a + (h * n + i) * n + j) * s < img.inode(ino).size
    ensures Accepted(claims, ino, img.ind(img.ind(img.ind(z, h), i), j), 0)
  {
    hide Double;
    TripleOffset(a, h, i, j, n, s);
    var c := a + h * (n * n);
    assert Begins(img, ino, c, s);
    DoubleAt(img, claims, ino, img.ind(z, h), c, n, s, i, j);
  }

  lemma TripleOffset(a: nat, h: nat, i: nat, j: nat, n: nat, s: nat)
    ensures a + h * (n * n) + i * n + j == a + (h * n + i) * n + j
    ensures (a + h * (n * n)) * s <= (a + (h * n + i) * n + j) * s
  {
    Factor(h, i, n);
    MulAtMost(a + h * (n * n), a + (h * n + i) * n + j, s);
  }

  // ----- where zones stand

  /** `z` is the zone that the `k`th zone number of a file leads to, at the level at which all
      its zone numbers are data zones: in the inode, or one, two or three levels under it. */
  ghost predicate Direct(img: Image, ino: nat, z: nat, k: nat) {
    k < 7 && img.inode(ino).zone[k] == z
  }

  ghost predicate UnderSingle(img: Image, ino: nat, z: nat, j: nat, n: nat) {
    var y := img.inode(ino).zone[7];
    y != 0 && j < n && img.ind(y, j) == z
  }

  ghost predicate UnderDouble(img: Image, ino: nat, z: nat, i: nat, j: nat, n: nat) {
    var x := img.inode(ino).zone[8];
    x != 0 && i < n && j < n && img.ind(x, i) != 0 && img.ind(img.ind(x, i), j) == z
  }

  ghost predicate UnderTriple(img: Image, ino: nat, z: nat, h: nat, i: nat, j: nat, n: nat) {
    var w := img.inode(ino).zone[9];
    && w != 0 && h < n && i < n && j < n && img.ind(w, h) != 0
    && img.ind(img.ind(w, h), i) != 0 && img.ind(img.ind(img.ind(w, h), i), j) == z
  }

  /** A data zone that stands at byte `at` is the `k`th zone of its file, and `at` is `k * s`. */
  lemma StandsMeans(img: Image, ino: nat, z: nat, at: nat, n: nat, s: nat)
    requires Units(img, n, s)
    ensures
      UnderAt(img, ino, z, 0, at) <==>
      || (exists k: nat :: Direct(img, ino, z, k) && at == k * s)
      || (exists j: nat :: UnderSingle(img, ino, z, j, n) && at == (7 + j) * s)
      || (exists i: nat, j: nat :: UnderDouble(img, ino, z, i, j, n) && at == (7 + n + i * n + j) * s)
      || (exists h: nat, i: nat, j: nat ::
            UnderTriple(img, ino, z, h, i, j, n) && at == (7 + n + n * n + (h * n + i) * n + j) * s)
  {
    hide UnderAt, Units, Direct, UnderSingle, UnderDouble, UnderTriple;
    if UnderAt(img, ino, z, 0, at) {
      StandsAs(img, ino, z, at, n, s);
    }
    if k: nat :| Direct(img, ino, z, k) && at == k * s {
      DirectStands(img, ino, z, k, n, s);
    } else if j: nat :| UnderSingle(img, ino, z, j, n) && at == (7 + j) * s {
      SingleStands(img, ino, z, j, n, s);
    } else if i: nat, j: nat :| UnderDouble(img, ino, z, i, j, n) && at == (7 + n + i * n + j) * s {
      DoubleStands(img, ino, z, at, i, j, n, s);
    } else if h: nat, i: nat, j: nat :|
        UnderTriple(img, ino, z, h, i, j, n) && at == (7 + n + n * n + (h * n + i) * n + j) * s {
      TripleStands(img, ino, z, at, h, i, j, n, s);
    }
  }

  lemma DirectStands(img: Image, ino: nat, z: nat, k: nat, n: nat, s: nat)
    requires Units(img, n, s) && Direct(img, ino, z, k)
    ensures UnderAt(img, ino, z, 0, k * s)
  {
    JumpMeans(img, n, s);
  }

  lemma SingleStands(img: Image, ino: nat, z: nat, j: nat, n: nat, s: nat)
    requires Units(img, n, s) && UnderSingle(img, ino, z, j, n)
    ensures UnderAt(img, ino, z, 0, (7 + j) * s)
  {
    hide UnderAt, Units, Start;
    HeadStands(img, ino, 1, n, s);
    EntryStands(img, ino, img.inode(ino).zone[7], j, 0, 7, 1, n, s);
  }

  lemma DoubleStands(img: Image, ino: nat, z: nat, at: nat, i: nat, j: nat, n: nat, s: nat)
    requires Units(img, n, s) && UnderDouble(img, ino, z, i, j, n) && at == (7 + n + i * n + j) * s
    ensures UnderAt(img, ino, z, 0, at)
  {
    hide UnderAt, Units, Start;
    HeadStands(img, ino, 2, n, s);
    EntryStands(img, ino, img.inode(ino).zone[8], i, 1, 7 + n, n, n, s);
    EntryStands(img, ino, img.ind(img.inode(ino).zone[8], i), j, 0, 7 + n + i * n, 1, n, s);
  }

  lemma TripleStands(img: Image, ino: nat, z: nat, at: nat, h: nat, i: nat, j: nat, n: nat, s: nat)
    requires Units(img, n, s) && UnderTriple(img, ino, z, h, i, j, n)
    requires at == (7 + n + n * n + (h * n + i) * n + j) * s
    ensures UnderAt(img, ino, z, 0, at)
  {
    hide UnderAt, Units, Start;
    var w, a := img.inode(ino).zone[9], 7 + n + n * n;
    HeadStands(img, ino, 3, n, s);
    EntryStands(img, ino, w, h, 2, a, n * n, n, s);
    EntryStands(img, ino, img.ind(w, h), i, 1, a + h * (n * n), n, n, s);
    Factor(h, i, n);
    EntryStands(img, ino, img.ind(img.ind(w, h), i), j, 0, a + (h * n + i) * n, 1, n, s);
  }

  lemma Factor(h: nat, i: nat, n: nat)
    ensures h * (n * n) + i * n == (h * n + i) * n
  {
  }

  lemma HeadStands(img: Image, ino: nat, level: nat, n: nat, s: nat)
    requires Units(img, n, s) && 1 <= level <= 3
    ensures UnderAt(img, ino, img.inode(ino).zone[7 + level - 1], level, Start(img, level))
    ensures Start(img, 1) == 7 * s && Start(img, 2) == (7 + n) * s && Start(img, 3) == (7 + n + n * n) * s
  {
    JumpMeans(img, n, s);
  }

  lemma LevelJump(img: Image, level: nat, m: nat, n: nat, s: nat)
    requires Units(img, n, s) && level < 3 && m == (if level == 0 then 1 else if level == 1 then n else n * n)
    ensures img.Jump(level) == m * s
  {
    JumpMeans(img, n, s);
  }

  /** Entry `k` of zone `p`, which is the `a`th zone of the file and on; entries stand for `m`
      zones each. */
  lemma EntryStands(img: Image, ino: nat, p: nat, k: nat, level: nat, a: nat, m: nat, n: nat, s: nat)
    requires Units(img, n, s) && level < 3 && m == (if level == 0 then 1 else if level == 1 then n else n * n)
    requires UnderAt(img, ino, p, level + 1, a * s) && p != 0 && k < n
    ensures UnderAt(img, ino, img.ind(p, k), level, (a + k * m) * s)
  {
    AllRead(img, n, s);
    LevelJump(img, level, m, n, s);
    JumpStands(img, ino, p, k, level, a, m, s);
  }

  lemma JumpStands(img: Image, ino: nat, p: nat, k: nat, level: nat, a: nat, m: nat, s: nat)
    requires level < 3 && img.Jump(level) == m * s && k < img.IndirectsRead() && p != 0
    requires UnderAt(img, ino, p, level + 1, a * s)
    ensures UnderAt(img, ino, img.ind(p, k), level, (a + k * m) * s)
  {
    hide UnderAt, Image.Jump, Image.IndirectsRead, Below, Begins;
    BelowIs(img, ino, level, a, k, m, s);
    EntryUnder(img, ino, p, k, level, a * s, (a + k * m) * s);
  }

  lemma EntryUnder(img: Image, ino: nat, p: nat, k: nat, level: nat, start: nat, at: nat)
    requires level < 3 && UnderAt(img, ino, p, level + 1, start) && p != 0 && k < img.IndirectsRead()
    requires at == start + k * img.Jump(level)
    ensures UnderAt(img, ino, img.ind(p, k), level, at)
  {
    assert EntryAt(img, p, k, img.ind(p, k), level, start, at);
  }

  /** How a zone that stands somewhere is an entry of one that stands a level above. */
  lemma StandsUnder(img: Image, ino: nat, z: nat, level: nat, at: nat, m: nat, n: nat, s: nat)
        returns (p: nat, k: nat, start: nat)
    requires Units(img, n, s) && level < 3 && m == (if level == 0 then 1 else if level == 1 then n else n * n)
    requires UnderAt(img, ino, z, level, at)
    ensures
      || (level == 0 && Direct(img, ino, z, k) && at == k * s)
      || (1 <= level && img.inode(ino).zone[7 + level - 1] == z && at == Start(img, level))
      || (p != 0 && k < n && img.ind(p, k) == z && at == start + k * (m * s)
          && UnderAt(img, ino, p, level + 1, start))
  {
    AllRead(img, n, s);
    JumpMeans(img, n, s);
    p, k, start := 0, 0, 0;
    if level == 0 && exists k: nat :: k < V2_NR_DZONES && img.inode(ino).zone[k] == z && at == k * img.Jump(0) {
      k :| k < V2_NR_DZONES && img.inode(ino).zone[k] == z && at == k * img.Jump(0);
    } else if !(1 <= level && img.inode(ino).zone[V2_NR_DZONES + level - 1] == z && at == Start(img, level)) {
      p, k, start :| EntryAt(img, p, k, z, level, start, at) && UnderAt(img, ino, p, level + 1, start);
    }
  }

  /** The other direction, level by level. */
  lemma StandsAs(img: Image, ino: nat, z: nat, at: nat, n: nat, s: nat)
    requires Units(img, n, s) && UnderAt(img, ino, z, 0, at)
    ensures
      || (exists k: nat :: Direct(img, ino, z, k) && at == k * s)
      || (exists j: nat :: UnderSingle(img, ino, z, j, n) && at == (7 + j) * s)
      || (exists i: nat, j: nat :: UnderDouble(img, ino, z, i, j, n) && at == (7 + n + i * n + j) * s)
      || (exists h: nat, i: nat, j: nat ::
            UnderTriple(img, ino, z, h, i, j, n) && at == (7 + n + n * n + (h * n + i) * n + j) * s)
  {
    hide UnderAt, Start, Units;
    HeadStarts(img, n, s);
    var p, j, b := StandsUnder(img, ino, z, 0, at, 1, n, s);
    if !(Direct(img, ino, z, j) && at == j * s) {
      var q, i, c := StandsUnder(img, ino, p, 1, b, n, n, s);
      if img.inode(ino).zone[7] == p && b == 7 * s {
        Offset(7, j, 1, s);
        assert UnderSingle(img, ino, z, j, n);
      } else {
        var r, h, d := StandsUnder(img, ino, q, 2, c, n * n, n, s);
        hide Direct, UnderSingle;
        if img.inode(ino).zone[8] == q && c == (7 + n) * s {
          TwoEntries(7 + n, i, j, n, s);
          assert UnderDouble(img, ino, z, i, j, n);
        } else {
          TopStands(img, ino, r, d, n, s);
          ThreeEntries(7 + n + n * n, h, i, j, n, s);
          assert UnderTriple(img, ino, z, h, i, j, n);
        }
      }
    }
  }

  lemma TwoEntries(a: nat, i: nat, j: nat, n: nat, s: nat)
    ensures a * s + i * (n * s) + j * (1 * s) == (a + i * n + j) * s
  {
    Offset(a, i, n, s);
    Offset(a + i * n, j, 1, s);
  }

  lemma ThreeEntries(a: nat, h: nat, i: nat, j: nat, n: nat, s: nat)
    ensures a * s + h * ((n * n) * s) + i * (n * s) + j * (1 * s) == (a + (h * n + i) * n + j) * s
  {
    Offset(a, h, n * n, s);
    TwoEntries(a + h * (n * n), i, j, n, s);
    Factor(h, i, n);
  }

  lemma HeadStarts(img: Image, n: nat, s: nat)
    requires Units(img, n, s)
    ensures Start(img, 1) == 7 * s && Start(img, 2) == (7 + n) * s && Start(img, 3) == (7 + n + n * n) * s
  {
    JumpMeans(img, n, s);
  }

  lemma TopStands(img: Image, ino: nat, z: nat, at: nat, n: nat, s: nat)
    requires Units(img, n, s) && UnderAt(img, ino, z, 3, at)
    ensures img.inode(ino).zone[9] == z && at == (7 + n + n * n) * s
  {
    JumpMeans(img, n, s);
  }
}
