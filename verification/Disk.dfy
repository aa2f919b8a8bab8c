/** The block cache as the file server sees it: a store of typed blocks. */
module Disk {
  type byte = x: int | 0 <= x < 256

  const NAME_MAX: nat := 60

  type NameField = s: seq<byte> | |s| == NAME_MAX witness Zeroes(NAME_MAX, 0)

  datatype Dirent = Dirent(inum: nat, name: NameField)

  datatype Block =
    | Indirect(zones: seq<nat>)
    | Data(bytes: seq<byte>)
    | Dirents(entries: seq<Dirent>)

  datatype BlockType = INDIRECT_BLOCK | FULL_DATA_BLOCK | DIRECTORY_BLOCK

  datatype ReadFlag = NORMAL | NO_READ

  function Zeroes<T>(n: nat, zero: T): (s: seq<T>)
    ensures |s| == n && forall i | 0 <= i < n :: s[i] == zero
  {
    seq(n, _ => zero)
  }

  const NO_DIRENT := Dirent(0, Zeroes(NAME_MAX, 0))

  /** A name field holds the name `s`: its bytes, and then a NUL unless the field is full. */
  predicate NameIs(name: seq<byte>, s: seq<byte>) {
    s <= name && (|s| == |name| || name[|s|] == 0)
  }

  const DOT: seq<byte> := [46]
  const DOTDOT: seq<byte> := [46, 46]

  /** A block of zeroes, typed as `make` types it. */
  function ZeroOf(btype: BlockType, blocksize: nat): Block {
    match btype
    case INDIRECT_BLOCK => Indirect(Zeroes(blocksize / 4, 0))
    case FULL_DATA_BLOCK => Data(Zeroes(blocksize, 0))
    case DIRECTORY_BLOCK => Dirents(Zeroes(blocksize / 64, NO_DIRENT))
  }

  predicate HasType(block: Block, btype: BlockType, blocksize: nat) {
    match btype
    case INDIRECT_BLOCK => block.Indirect? && |block.zones| == blocksize / 4
    case FULL_DATA_BLOCK => block.Data? && |block.bytes| == blocksize
    case DIRECTORY_BLOCK => block.Dirents? && |block.entries| == blocksize / 64
  }

  class BlockCache {
    var blocks: map<nat, Block>

    constructor (blocks: map<nat, Block>)
      ensures this.blocks == blocks
    {
      this.blocks := blocks;
    }

    /** Makes block `b` resident. Without a read, a block that was not resident holds
        whatever the new buffer holds, but typed as asked for. */
    method GetBlock(b: nat, btype: BlockType, flag: ReadFlag, blocksize: nat)
      modifies this
      ensures b in blocks && blocks == old(blocks)[b := blocks[b]]
      ensures flag == NORMAL && b in old(blocks) ==> blocks == old(blocks)
      ensures (b in old(blocks) && blocks == old(blocks)) || HasType(blocks[b], btype, blocksize)
    {
      var resident: bool := *;
      if b in blocks && (flag == NORMAL || resident) {
        return;
      }
      assert HasType(ZeroOf(btype, blocksize), btype, blocksize);
      var contents :| HasType(contents, btype, blocksize);
      blocks := blocks[b := contents];
    }

    method ZeroBlock(b: nat, btype: BlockType, blocksize: nat)
      modifies this
      ensures blocks == old(blocks)[b := ZeroOf(btype, blocksize)]
      ensures
        match btype
        case INDIRECT_BLOCK =>
          blocks[b].Indirect? && |blocks[b].zones| == blocksize / 4 && forall z | z in blocks[b].zones :: z == 0
        case FULL_DATA_BLOCK =>
          blocks[b].Data? && |blocks[b].bytes| == blocksize && forall x | x in blocks[b].bytes :: x == 0
        case DIRECTORY_BLOCK =>
          && blocks[b].Dirents? && |blocks[b].entries| == blocksize / 64
          && forall d | d in blocks[b].entries :: d.inum == 0 && forall x | x in d.name :: x == 0
    {
      blocks := blocks[b := ZeroOf(btype, blocksize)];
    }
  }
}
