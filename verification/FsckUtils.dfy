/** The checker's packed bitmaps as sets of numbers, and where it finds an inode. */
module FsckUtils {
  import opened Common
  import opened Words32
  import InodeTable

  const INODE_SIZE: nat := 64

  function WordOfBit(b: nat): nat {
    Quot(b, 32)
  }

  function PowerOfBit(b: nat): bv32 {
    Mask(Rem(b, 32))
  }

  lemma SamePlace(b: nat, c: nat)
    ensures WordOfBit(b) == WordOfBit(c) && Rem(b, 32) == Rem(c, 32) <==> b == c
  {
    DivMod(b, 32);
    DivMod(c, 32);
  }

  // ----- bitmaps

  /** The numbers whose bits are set. */
  predicate IsSet(w: seq<bv32>, b: nat) {
    WordOfBit(b) < |w| && Meets(w[WordOfBit(b)], PowerOfBit(b))
  }

  ghost function Members(w: seq<bv32>): set<nat> {
    set b: nat | b < 32 * |w| && IsSet(w, b)
  }

  lemma WordInRange(b: nat, n: nat)
    ensures WordOfBit(b) < n <==> b < 32 * n
  {
    DivMod(b, 32);
  }

  /** The bitmap with one bit stored. */
  function Stored(w: seq<bv32>, b: nat, on: bool): seq<bv32>
    requires WordOfBit(b) < |w|
  {
    w[WordOfBit(b) := Store(w[WordOfBit(b)], PowerOfBit(b), on)]
  }

  lemma StoredIs(w: seq<bv32>, b: nat, on: bool, c: nat)
    requires b < 32 * |w| && c < 32 * |w|
    ensures WordOfBit(b) < |w|
    ensures IsSet(Stored(w, b, on), c) <==> if c == b then on else IsSet(w, c)
  {
    WordInRange(b, |w|);
    WordInRange(c, |w|);
    SamePlace(b, c);
    MaskBits(Rem(b, 32), Rem(c, 32));
    hide Mask, Store, Quot, Rem;
    if Rem(b, 32) == Rem(c, 32) {
      StoreSame(w[WordOfBit(b)], PowerOfBit(b), on);
    } else {
      StoreOther(w[WordOfBit(b)], PowerOfBit(b), on, PowerOfBit(c));
    }
  }

  lemma StoredMembers(w: seq<bv32>, b: nat, on: bool)
    requires b < 32 * |w|
    ensures WordOfBit(b) < |w|
    ensures Members(Stored(w, b, on)) == if on then Members(w) + {b} else Members(w) - {b}
  {
    hide IsSet, Store, Quot, Rem;
    WordInRange(b, |w|);
    forall c: nat | c < 32 * |w|
      ensures IsSet(Stored(w, b, on), c) <==> if c == b then on else IsSet(w, c)
    {
      StoredIs(w, b, on, c);
    }
  }

  /** Inserts a number. */
  method SetBit(w: array<bv32>, b: nat)
    requires b < 32 * w.Length
    modifies w
    ensures Members(w[..]) == old(Members(w[..])) + {b}
  {
    hide Members, Store, WordOfBit, PowerOfBit;
    StoredMembers(w[..], b, true);
    ghost var before := w[..];
    w[WordOfBit(b)] := Store(w[WordOfBit(b)], PowerOfBit(b), true);
    assert w[..] == Stored(before, b, true);
  }

  /** Removes a number. */
  method ClrBit(w: array<bv32>, b: nat)
    requires b < 32 * w.Length
    modifies w
    ensures Members(w[..]) == old(Members(w[..])) - {b}
  {
    hide Members, Store, WordOfBit, PowerOfBit;
    StoredMembers(w[..], b, false);
    ghost var before := w[..];
    w[WordOfBit(b)] := Store(w[WordOfBit(b)], PowerOfBit(b), false);
    assert w[..] == Stored(before, b, false);
  }

  /** Tells whether a number is in the set. */
  method BitSet(w: array<bv32>, b: nat) returns (r: bool)
    requires b < 32 * w.Length
    ensures r <==> b in Members(w[..])
  {
    hide Meets, WordOfBit, PowerOfBit;
    WordInRange(b, w.Length);
    r := Meets(w[WordOfBit(b)], PowerOfBit(b));
    assert w[..][WordOfBit(b)] == w[WordOfBit(b)];
  }

  // ----- sizes and places

  function BitsPerBlock(blockSize: nat): nat {
    blockSize / 4 * 32
  }

  /** The number of blocks a bitmap needs: the least that hold all its bits. */
  method BitmapSize(bits: nat, blockSize: nat) returns (blocks: nat)
    requires 0 < BitsPerBlock(blockSize)
    ensures bits <= blocks * BitsPerBlock(blockSize)
    ensures bits <= blocks * (blockSize / 4 * 32) && (blocks > 0 ==> (blocks - 1) * (blockSize / 4 * 32) < bits)
    ensures forall n: nat {:trigger n * BitsPerBlock(blockSize)} | bits <= n * BitsPerBlock(blockSize) :: blocks <= n
  {
    var per := BitsPerBlock(blockSize);
    blocks := Quot(bits, per);
    DivMod(bits, per);
    if blocks * per < bits {
      blocks := blocks + 1;
    }
    forall n: nat {:trigger n * per} | bits <= n * per
      ensures blocks <= n
    {
      MulOrder(n, Quot(bits, per), per);
      MulOrder(n, blocks, per);
    }
  }

  /** The block of inode `inn`, from the start of the inode list. */
  function InoBlock(inn: nat, blockSize: nat, ilist: nat): nat
    requires 0 < inn && 0 < blockSize
  {
    Quot((inn - 1) * INODE_SIZE, blockSize) + ilist
  }

  function InoOff(inn: nat, blockSize: nat): nat
    requires 0 < inn && 0 < blockSize
  {
    Rem((inn - 1) * INODE_SIZE, blockSize)
  }

  /** If a block holds whole inodes, each lies within one block and no two overlap. */
  lemma InodesApart(i: nat, j: nat, blockSize: nat, ilist: nat)
    requires 0 < i && 0 < j && 0 < blockSize && blockSize % INODE_SIZE == 0
    ensures InoOff(i, blockSize) + INODE_SIZE <= blockSize
    ensures i != j && InoBlock(i, blockSize, ilist) == InoBlock(j, blockSize, ilist) ==>
              InoOff(i, blockSize) + INODE_SIZE <= InoOff(j, blockSize)
                  || InoOff(j, blockSize) + INODE_SIZE <= InoOff(i, blockSize)
  {
    var k, m := InodePlace(i, blockSize);
    var l, n := InodePlace(j, blockSize);
  }

  /** The checker and the server find an inode in the same place. */
  lemma SameAsServer(i: nat, g: InodeTable.Geometry)
    requires 0 < i && 0 < g.blocksize && g.blocksize % INODE_SIZE == 0
    ensures InodeTable.BlockOf(g, i) == InoBlock(i, g.blocksize, g.mapOffset)
    ensures 64 * InodeTable.OffsetOf(g, i) == InoOff(i, g.blocksize)
  {
    var k, m := InodePlace(i, g.blocksize);
    InodeTable.InodeAddress(g, i, InoBlock(i, g.blocksize, g.mapOffset), m);
  }

  /** The byte address of an inode is its number times its size. */
  lemma InodePlace(i: nat, blockSize: nat) returns (k: nat, m: nat)
    requires 0 < i && 0 < blockSize && blockSize % INODE_SIZE == 0
    ensures blockSize == 64 * k && InoOff(i, blockSize) == 64 * m && m < k
    ensures InoBlock(i, blockSize, 0) * blockSize + InoOff(i, blockSize) == 64 * (i - 1)
  {
    k := blockSize / 64;
    var a := (i - 1) * INODE_SIZE;
    DivMod(a, blockSize);
    var q := Quot(a, blockSize);
    assert q * blockSize == 64 * (q * k);
    m := (i - 1) - q * k;
  }
}
