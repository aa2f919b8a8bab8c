/** The inode cache: a table of reference-counted slots over the inode blocks of the disks. */
module InodeTable {
  import opened Common

  const NO_INODE: int := -1
  const I_NOT_ALLOC: nat := 0
  const V2_INODE_SIZE: nat := 64

  datatype DiskInode = DiskInode(mode: nat, nlinks: nat, uid: nat, gid: nat, size: nat, zone: seq<nat>)

  /** Where the inodes of a device lie. */
  datatype Geometry = Geometry(blocksize: nat, mapOffset: nat, inodes: nat)

  function PerBlock(g: Geometry): nat {
    g.blocksize / V2_INODE_SIZE
  }

  function BlockOf(g: Geometry, inum: nat): nat
    requires 0 < PerBlock(g) && 0 < inum
  {
    g.mapOffset + Quot(inum - 1, PerBlock(g))
  }

  function OffsetOf(g: Geometry, inum: nat): nat
    requires 0 < PerBlock(g) && 0 < inum
  {
    Rem(inum - 1, PerBlock(g))
  }

  /** No two inodes of a device share a place. */
  lemma PlacesApart(g: Geometry, i: nat, j: nat)
    requires 0 < PerBlock(g) && 0 < i && 0 < j
    ensures BlockOf(g, i) == BlockOf(g, j) && OffsetOf(g, i) == OffsetOf(g, j) <==> i == j
  {
    DivMod(i - 1, PerBlock(g));
    DivMod(j - 1, PerBlock(g));
  }

  /** The place of an inode by its address: the inodes stand side by side in number order, from
      the first byte of block `mapOffset` on, with whole inodes in a block. */
  lemma InodeAddress(g: Geometry, i: nat, b: nat, o: nat)
    requires 0 < g.blocksize / 64 && 0 < i && g.mapOffset <= b && o < g.blocksize / 64
    ensures BlockOf(g, i) == b && OffsetOf(g, i) == o <==> (b - g.mapOffset) * (g.blocksize / 64) + o == i - 1
    ensures g.blocksize % 64 == 0 ==>
              (BlockOf(g, i) == b && OffsetOf(g, i) == o <==>
               (b - g.mapOffset) * g.blocksize + 64 * o == 64 * (i - 1))
  {
    var n := g.blocksize / 64;
    DivMod(i - 1, n);
    if (b - g.mapOffset) * n + o == i - 1 {
      DivModUnique(i - 1, n, b - g.mapOffset, o);
    }
    if g.blocksize % 64 == 0 {
      assert (b - g.mapOffset) * g.blocksize == 64 * ((b - g.mapOffset) * n);
    }
  }

  /** The part of a cached inode that the table works on. */
  class Slot {
    var devno: nat
    var inum: nat
    var count: int
    var dirty: bool
    var inode: DiskInode

    constructor ()
      ensures devno == 0 && inum == 0 && count == 0 && !dirty
    {
      devno, inum, count, dirty, inode := 0, 0, 0, false, DiskInode(0, 0, 0, 0, 0, []);
    }

    predicate Holds(d: nat, i: nat)
      reads this`devno, this`inum, this`count
    {
      count > 0 && devno == d && inum == i
    }
  }

  type Blocks = map<(nat, nat), seq<DiskInode>>

  /** Inode `i` is an inode of device `d`, and its block is at hand. */
  ghost predicate AtHand(devinfo: seq<Geometry>, blocks: Blocks, d: nat, i: nat) {
    && d < |devinfo| && 0 < PerBlock(devinfo[d]) && 1 <= i <= devinfo[d].inodes
    && (d, BlockOf(devinfo[d], i)) in blocks
    && |blocks[(d, BlockOf(devinfo[d], i))]| == PerBlock(devinfo[d])
  }

  /** A request names its inode; a put or a change is that of a client that has it open. */
  datatype Request = Get(d: nat, i: nat) | Put(d: nat, i: nat) | Change(d: nat, i: nat, inode: DiskInode)

  datatype Answer = Opened(inode: DiskInode) | Full | Closed(freed: bool) | Changed | NotOpen

  /** An inode as clients see it: how many use it, and what it holds. */
  datatype Status = Status(refs: int, inode: DiskInode)

  type Table = map<(nat, nat), Status>

  /** The inodes that somebody has open. */
  function Live(t: Table): set<(nat, nat)> {
    set n | n in t && t[n].refs > 0
  }

  /** The last client closes an inode that no directory names. */
  predicate Frees(s: Status) {
    s.refs == 1 && s.inode.nlinks == 0
  }

  /** How a table of `room` usable slots answers: it is full exactly if it has to take a slot
      and all are taken. */
  function AnswerTo(t: Table, room: nat, r: Request): Answer
    requires (r.d, r.i) in t
  {
    var s := t[(r.d, r.i)];
    match r
    case Get(_, _) => if s.refs > 0 || |Live(t)| < room then Opened(s.inode) else Full
    case Put(_, _) => if s.refs > 0 then Closed(Frees(s)) else NotOpen
    case Change(_, _, _) => if s.refs > 0 then Changed else NotOpen
  }

  function Apply(t: Table, room: nat, r: Request): (t': Table)
    requires (r.d, r.i) in t
    ensures t'.Keys == t.Keys
  {
    var s := t[(r.d, r.i)];
    match AnswerTo(t, room, r)
    case Opened(_) => t[(r.d, r.i) := s.(refs := s.refs + 1)]
    case Closed(freed) => t[(r.d, r.i) := Status(s.refs - 1, if freed then s.inode.(mode := I_NOT_ALLOC) else s.inode)]
    case Changed => t[(r.d, r.i) := s.(inode := if r.Change? then r.inode else s.inode)]
    case Full => t
    case NotOpen => t
  }

  ghost predicate Within(t: Table, requests: seq<Request>) {
    forall r | r in requests :: (r.d, r.i) in t
  }

  /** The table after a run of requests. */
  function After(t: Table, room: nat, requests: seq<Request>): (t': Table)
    requires Within(t, requests)
    ensures t'.Keys == t.Keys
  {
    if requests == [] then t
    else
      var n := |requests| - 1;
      assert requests[n] in requests;
      Apply(After(t, room, requests[..n]), room, requests[n])
  }

  /** Every request has its answer: above all, whoever opens an inode gets it as it was left. */
  ghost predicate Answered(t: Table, room: nat, requests: seq<Request>, answers: seq<Answer>)
    requires Within(t, requests)
  {
    && |answers| == |requests|
    && forall k | 0 <= k < |requests| :: answers[k] == AnswerAt(t, room, requests, k)
  }

  function AnswerAt(t: Table, room: nat, requests: seq<Request>, k: nat): Answer
    requires Within(t, requests) && k < |requests|
  {
    assert requests[k] in requests;
    AnswerTo(After(t, room, requests[..k]), room, requests[k])
  }

  lemma NoRequests(t: Table, room: nat)
    ensures Within(t, []) && After(t, room, []) == t && Answered(t, room, [], [])
  {
  }

  lemma OneMore(t: Table, room: nat, requests: seq<Request>, k: nat, answers: seq<Answer>)
    requires Within(t, requests) && k < |requests| && Answered(t, room, requests[..k], answers)
    ensures After(t, room, requests[..k + 1]) == Apply(After(t, room, requests[..k]), room, requests[k])
    ensures Answered(t, room, requests[..k + 1], answers + [AnswerAt(t, room, requests, k)])
  {
    hide Apply, AnswerTo;
    var rs := requests[..k + 1];
    assert rs[..k] == requests[..k] && rs[k] == requests[k];
    forall j | 0 <= j < k
      ensures rs[..j] == requests[..k][..j] && rs[j] == requests[..k][j]
    {
    }
  }

  // ----- what follows of every run

  /** The gets of an inode that were granted, minus its puts. */
  ghost function Balance(requests: seq<Request>, answers: seq<Answer>, d: nat, i: nat): int
    requires |requests| == |answers|
  {
    if requests == [] then 0
    else
      var n := |requests| - 1;
      var r := requests[n];
      Balance(requests[..n], answers[..n], d, i) +
      if r.d != d || r.i != i then 0 else if answers[n].Opened? then 1 else if answers[n].Closed? then -1 else 0
  }

  lemma RunFront(t: Table, room: nat, requests: seq<Request>, answers: seq<Answer>)
    requires Within(t, requests) && Answered(t, room, requests, answers) && requests != []
    ensures
      var n := |requests| - 1;
      && Answered(t, room, requests[..n], answers[..n])
      && answers[n] == AnswerTo(After(t, room, requests[..n]), room, requests[n])
      && After(t, room, requests) == Apply(After(t, room, requests[..n]), room, requests[n])
  {
    hide Apply, AnswerTo;
    var n := |requests| - 1;
    var rs := requests[..n];
    forall j | 0 <= j < n
      ensures rs[..j] == requests[..j] && rs[j] == requests[j] && answers[..n][j] == AnswerAt(t, room, requests, j)
    {
    }
    assert answers[n] == AnswerAt(t, room, requests, n);
  }

  /** An inode's count is gets minus puts. */
  lemma {:induction false} CountIsBalance(t: Table, room: nat, requests: seq<Request>, answers: seq<Answer>, d: nat,
        i: nat)
    requires Within(t, requests) && Answered(t, room, requests, answers) && (d, i) in t
    ensures After(t, room, requests)[(d, i)].refs == t[(d, i)].refs + Balance(requests, answers, d, i)
  {
    if requests != [] {
      assert |answers| == |requests|;
      hide Answered, After;
      var n := |requests| - 1;
      RunFront(t, room, requests, answers);
      CountIsBalance(t, room, requests[..n], answers[..n], d, i);
    }
  }

  /** At some time after request `k` nobody had the inode open. */
  ghost predicate ClosedSince(t: Table, room: nat, requests: seq<Request>, k: nat, d: nat, i: nat)
    requires Within(t, requests) && (d, i) in t
  {
    exists m :: k < m <= |requests| && After(t, room, requests[..m])[(d, i)].refs <= 0
  }

  /** An inode as it is left by its last change: unless nobody has had it open since, while no
      directory names it, it is what it was changed to, whatever happened to it and to other
      inodes. Otherwise it has been freed. */
  ghost function Left(inode: DiskInode, closed: bool): DiskInode {
    if closed && inode.nlinks == 0 then inode.(mode := I_NOT_ALLOC) else inode
  }

  lemma {:induction false} LastChangeStays(t: Table, room: nat, requests: seq<Request>, k: nat)
    requires Within(t, requests) && k < |requests| && requests[k].Change?
    requires AnswerAt(t, room, requests, k) == Changed
    requires
      var r := requests[k];
      forall m | k < m < |requests| && requests[m].Change? && requests[m].d == r.d && requests[m].i == r.i ::
        AnswerAt(t, room, requests, m) == NotOpen
    ensures
      var r := requests[k];
      requests[k] in requests &&
      After(t, room, requests)[(r.d, r.i)].inode == Left(r.inode, ClosedSince(t, room, requests, k, r.d, r.i))
    decreases |requests|
  {
    var n, r := |requests| - 1, requests[k];
    assert r in requests && requests[n] in requests;
    var before := requests[..n];
    var t1 := After(t, room, before);
    if k == n {
      assert forall m | k < m <= |requests| :: requests[..m] == requests;
    } else {
      forall m | 0 <= m < n
        ensures before[m] == requests[m] && AnswerAt(t, room, before, m) == AnswerAt(t, room, requests, m)
      {
        assert before[..m] == requests[..m];
      }
      LastChangeStays(t, room, before, k);
      SinceNext(t, room, requests, k, r.d, r.i);
      assert AnswerAt(t, room, requests, n) == AnswerTo(t1, room, requests[n]);
      StepLeaves(t1, room, requests[n], r.d, r.i, r.inode, ClosedSince(t, room, before, k, r.d, r.i));
    }
  }

  lemma SinceNext(t: Table, room: nat, requests: seq<Request>, k: nat, d: nat, i: nat)
    requires Within(t, requests) && (d, i) in t && k + 1 < |requests|
    ensures
      var before := requests[..|requests| - 1];
      && ClosedSince(t, room, requests, k, d, i) ==
         (ClosedSince(t, room, before, k, d, i) || After(t, room, requests)[(d, i)].refs <= 0)
      && (After(t, room, before)[(d, i)].refs <= 0 ==> ClosedSince(t, room, before, k, d, i))
  {
    hide After;
    var before := requests[..|requests| - 1];
    assert requests[..|requests|] == requests && before[..|before|] == before;
    forall m | k < m <= |before|
      ensures before[..m] == requests[..m]
    {
    }
  }

  lemma StepLeaves(t: Table, room: nat, r: Request, d: nat, i: nat, inode: DiskInode, closed: bool)
    requires (r.d, r.i) in t && (d, i) in t
    requires t[(d, i)].inode == Left(inode, closed) && (t[(d, i)].refs <= 0 ==> closed)
    requires r.Change? && r.d == d && r.i == i ==> AnswerTo(t, room, r) == NotOpen
    ensures Apply(t, room, r)[(d, i)].inode == Left(inode, closed || Apply(t, room, r)[(d, i)].refs <= 0)
  {
  }

  /** Numbered slots that hold different inodes are as many as the inodes. */
  lemma {:induction false} OneSlotEach(ks: set<int>, held: map<int, (nat, nat)>, n: nat)
    requires ks <= held.Keys && forall j, k | j in ks && k in ks && held[j] == held[k] :: j == k
    requires forall k | k in ks :: 0 < k <= n
    ensures |set k | k in ks :: held[k]| == |ks|
  {
    if n == 0 {
      assert forall k :: k !in ks;
      assert ks == {};
      assert (set k | k in ks :: held[k]) == {};
    } else {
      var rest := ks - {n};
      OneSlotEach(rest, held, n - 1);
      if n in ks {
        assert (set k | k in ks :: held[k]) == (set k | k in rest :: held[k]) + {held[n]};
      } else {
        assert rest == ks;
      }
    }
  }

  lemma {:induction false} AllSlots(ks: set<int>, n: nat)
    requires forall k | k in ks :: 0 < k <= n
    ensures |ks| <= n
    ensures |ks| == n <==> forall k | 0 < k <= n :: k in ks
  {
    if n == 0 {
      assert forall k :: k !in ks;
      assert ks == {};
    } else {
      AllSlots(ks - {n}, n - 1);
      assert n !in ks ==> ks - {n} == ks;
    }
  }

  ghost predicate HeldIn(ks: set<int>, held: map<int, (nat, nat)>, n: (nat, nat))
    requires ks <= held.Keys
  {
    exists k :: k in ks && held[k] == n
  }

  lemma HeldCount(ks: set<int>, held: map<int, (nat, nat)>, live: set<(nat, nat)>, room: nat)
    requires ks <= held.Keys && forall j, k | j in ks && k in ks && held[j] == held[k] :: j == k
    requires forall k | k in ks :: 0 < k <= room
    requires forall d: nat, i: nat :: (d, i) in live <==> HeldIn(ks, held, (d, i))
    ensures |live| <= room
    ensures |live| == room <==> forall k | 0 < k <= room :: k in ks
  {
    var image := set k | k in ks :: held[k];
    forall n
      ensures n in live <==> n in image
    {
      assert (n.0, n.1) == n;
    }
    assert live == image;
    OneSlotEach(ks, held, room);
    AllSlots(ks, room);
  }

  class InodeCache {
    const devinfo: seq<Geometry>
    const inodes: seq<Slot>
    var blocks: Blocks

    ghost predicate OnDisk(d: nat, i: nat)
      reads this`blocks
    {
      AtHand(devinfo, blocks, d, i)
    }

    ghost function Stored(d: nat, i: nat): DiskInode
      requires OnDisk(d, i)
      reads this`blocks
    {
      blocks[(d, BlockOf(devinfo[d], i))][OffsetOf(devinfo[d], i)]
    }

    /** The inode that stands at its address. */
    lemma StoredMeans(d: nat, i: nat, b: nat, o: nat)
      requires OnDisk(d, i) && devinfo[d].mapOffset <= b && o < devinfo[d].blocksize / 64
      requires (b - devinfo[d].mapOffset) * (devinfo[d].blocksize / 64) + o == i - 1
      ensures (d, b) in blocks && |blocks[(d, b)]| == devinfo[d].blocksize / 64 && Stored(d, i) == blocks[(d, b)][o]
    {
      InodeAddress(devinfo[d], i, b, o);
    }

    ghost predicate Formatted()
      reads this`blocks
    {
      forall d: nat, i: nat | d < |devinfo| && 1 <= i <= devinfo[d].inodes :: OnDisk(d, i)
    }

    ghost predicate Valid()
      reads this`blocks, inodes
    {
      && (forall a, b | 0 <= a < b < |inodes| :: inodes[a] != inodes[b])
      && (forall s | s in inodes :: s.count >= 0)
      // the first slot is never used
      && (inodes != [] ==> inodes[0].count == 0)
      // at most one live slot holds an inode
      && (forall s, t, d: nat, i: nat | s in inodes && t in inodes && s.Holds(d, i) && t.Holds(d, i) :: s == t)
      && (forall s | s in inodes && s.count > 0 :: OnDisk(s.devno, s.inum))
      && Formatted()
    }

    /** How many clients use an inode. */
    ghost function Refs(d: nat, i: nat): int
      reads inodes
    {
      if s :| s in inodes && s.Holds(d, i) then s.count else 0
    }

    constructor (size: nat, devinfo: seq<Geometry>, blocks: Blocks)
      requires forall d: nat, i: nat | d < |devinfo| && 1 <= i <= devinfo[d].inodes ::
                 AtHand(devinfo, blocks, d, i)
      ensures Valid() && Clean() && |inodes| == size
      ensures forall s | s in inodes :: fresh(s) && s.count == 0
    {
      this.devinfo := devinfo;
      this.blocks := blocks;
      var slots: seq<Slot> := [];
      for k := 0 to size
        invariant |slots| == k && forall a, b | 0 <= a < b < k :: slots[a] != slots[b]
        invariant forall s | s in slots :: fresh(s) && s.count == 0
      {
        var s := new Slot();
        slots := slots + [s];
      }
      inodes := slots;
      new;
      assert forall k | 0 <= k < |inodes| :: inodes[k] in slots;
    }

    /** The slot that holds an inode, or else the last unused one. */
    method FindSlot(d: nat, i: nat) returns (slot: int)
      requires Valid()
      ensures slot == NO_INODE || 0 <= slot < |inodes|
      ensures 0 < slot && inodes[slot].count > 0 ==> inodes[slot].Holds(d, i)
      ensures !(0 < slot && inodes[slot].count > 0) ==> forall s | s in inodes :: !s.Holds(d, i)
      ensures slot <= 0 ==> forall k | 0 < k < |inodes| :: inodes[k].count > 0
      ensures 0 <= slot && inodes[slot].count == 0 ==> forall k | slot < k < |inodes| :: inodes[k].count > 0
    {
      slot := NO_INODE;
      for k := 0 to |inodes|
        invariant slot == NO_INODE || (0 <= slot < k && inodes[slot].count == 0)
        invariant forall j | 0 <= j < k :: !inodes[j].Holds(d, i)
        invariant forall j | slot < j < k && 0 <= j :: inodes[j].count > 0
      {
        var rip := inodes[k];
        if rip.count > 0 {
          if rip.devno == d && rip.inum == i {
            slot := k;
            break;
          }
        } else {
          slot := k;
        }
      }
    }

    /** Reads an inode from its block. */
    method LoadInode(xp: Slot)
      requires OnDisk(xp.devno, xp.inum)
      modifies xp`inode, xp`dirty
      ensures xp.inode == Stored(xp.devno, xp.inum) && !xp.dirty
      ensures
        var n := devinfo[xp.devno].blocksize / 64;
        var b := devinfo[xp.devno].mapOffset + (xp.inum - 1) / n;
        (xp.devno, b) in blocks && |blocks[(xp.devno, b)]| == n && xp.inode == blocks[(xp.devno, b)][(xp.inum - 1) % n]
    {
      var inum := xp.inum - 1;
      var info := devinfo[xp.devno];
      var inodesPerBlock := PerBlock(info);
      var ioffset := Rem(inum, inodesPerBlock);
      var blocknum := info.mapOffset + Quot(inum, inodesPerBlock);
      xp.inode := blocks[(xp.devno, blocknum)][ioffset];
      xp.dirty := false;
    }

    /** Writes an inode into its block, and no other. */
    method WriteInode(xp: Slot)
      requires Formatted() && OnDisk(xp.devno, xp.inum)
      modifies this`blocks, xp`dirty
      ensures Formatted() && !xp.dirty
      ensures
        var n := devinfo[xp.devno].blocksize / 64;
        var b := devinfo[xp.devno].mapOffset + (xp.inum - 1) / n;
        && (xp.devno, b) in old(blocks) && |old(blocks)[(xp.devno, b)]| == n
        && blocks == old(blocks)[(xp.devno, b) := old(blocks)[(xp.devno, b)][(xp.inum - 1) % n := xp.inode]]
      ensures forall d: nat, i: nat | old(OnDisk(d, i)) ::
                OnDisk(d, i) && Stored(d, i) == if d == xp.devno && i == xp.inum then xp.inode else old(Stored(d, i))
    {
      var inum := xp.inum - 1;
      var info := devinfo[xp.devno];
      var inodesPerBlock := PerBlock(info);
      var ioffset := Rem(inum, inodesPerBlock);
      var blockNum := info.mapOffset + Quot(inum, inodesPerBlock);
      forall i: nat | 0 < i
        ensures BlockOf(info, i) == blockNum && OffsetOf(info, i) == ioffset <==> i == xp.inum
      {
        PlacesApart(info, i, xp.inum);
      }
      hide Quot, Rem;
      blocks := blocks[(xp.devno, blockNum) := blocks[(xp.devno, blockNum)][ioffset := xp.inode]];
      xp.dirty := false;
      forall d: nat, i: nat | d < |devinfo| && 1 <= i <= devinfo[d].inodes
        ensures OnDisk(d, i)
      {
        assert old(OnDisk(d, i));
      }
    }

    /** Takes an unused slot for an inode that no slot holds, and loads it. */
    method ClaimSlot(xp: Slot, d: nat, i: nat)
      requires Valid() && OnDisk(d, i) && xp in inodes && xp != inodes[0] && xp.count == 0
      requires forall s | s in inodes :: !s.Holds(d, i)
      modifies xp
      ensures Valid() && xp.Holds(d, i) && xp.count == 1
      ensures xp.inode == Stored(d, i) && !xp.dirty
    {
      hide AtHand, BlockOf, OffsetOf, Stored;
      xp.devno := d;
      xp.inum := i;
      xp.count := xp.count + 1;
      LoadInode(xp);
    }

    /** Opens an inode: a second client joins the first, and otherwise the inode is loaded
        into an unused slot. There is none exactly if all slots but the first are in use. */
    method GetInode(d: nat, i: nat) returns (xp: Slot?, err: Error)
      requires Valid() && OnDisk(d, i)
      modifies inodes
      ensures Valid()
      ensures err == (if xp == null then ENFILE else OK)
      ensures xp == null <==>
              && (forall s | s in inodes :: !old(s.Holds(d, i)))
              && (forall k | 0 < k < |inodes| :: old(inodes[k].count) > 0)
      ensures xp == null ==> unchanged(inodes)
      ensures xp != null ==>
                && xp in inodes && xp.Holds(d, i) && xp.count == old(xp.count) + 1
                && (old(xp.count) == 0 || old(xp.Holds(d, i)))
                && (forall s | s in inodes && s != xp :: unchanged(s))
      ensures forall s | s in inodes && old(s.Holds(d, i)) :: xp == s && s.inode == old(s.inode)
                && s.dirty == old(s.dirty)
      ensures xp != null && old(xp.count) == 0 ==> xp.inode == Stored(d, i) && !xp.dirty
      ensures xp != null && old(xp.count) == 0 ==>
                exists n :: 0 < n < |inodes| && inodes[n] == xp
                    && forall k | n < k < |inodes| :: old(inodes[k].count) > 0
    {
      hide AtHand, BlockOf, OffsetOf;
      var slot := FindSlot(d, i);
      xp := null;
      if slot > 0 && slot < |inodes| {
        xp := inodes[slot];
      }
      if xp == null {
        err := ENFILE;
      } else if xp.count > 0 {
        xp.count := xp.count + 1;
        err := OK;
      } else {
        ClaimSlot(xp, d, i);
        err := OK;
      }
    }

    /** Closes an inode. The last client's put writes it back if it is dirty, and frees it if
        no directory names it any more; then it is freed in the bitmap as well. */
    method PutInode(rip: Slot) returns (freed: bool)
      requires Valid() && rip in inodes && rip.count > 0
      modifies this`blocks, rip`count, rip`dirty, rip`inode
      ensures Valid()
      ensures rip.count == old(rip.count) - 1
      ensures freed <==> rip.count == 0 && old(rip.inode).nlinks == 0
      ensures rip.inode == if freed then old(rip.inode).(mode := I_NOT_ALLOC) else old(rip.inode)
      ensures rip.count > 0 ==> blocks == old(blocks) && rip.dirty == old(rip.dirty)
      ensures rip.count == 0 ==> !rip.dirty
      ensures forall d: nat, i: nat | old(OnDisk(d, i)) ::
                && OnDisk(d, i)
                && Stored(d, i) == if d == rip.devno && i == rip.inum && rip.count == 0 && (old(rip.dirty) || freed)
                                   then rip.inode else old(Stored(d, i))
    {
      hide AtHand, BlockOf, OffsetOf;
      freed := false;
      rip.count := rip.count - 1;
      if rip.count == 0 {
        if rip.inode.nlinks == 0 {
          rip.inode := rip.inode.(mode := I_NOT_ALLOC);
          rip.dirty := true;
          freed := true;
        }
        if rip.dirty {
          WriteInode(rip);
        }
      }
    }

    // ----- whole runs

    /** The inode as a client that opens it sees it. */
    ghost function Seen(d: nat, i: nat): DiskInode
      requires OnDisk(d, i)
      reads this`blocks, inodes
    {
      if s :| s in inodes && s.Holds(d, i) then s.inode else Stored(d, i)
    }

    /** Slots not marked dirty agree with the disk. */
    ghost predicate Clean()
      requires Valid()
      reads this`blocks, inodes
    {
      forall s | s in inodes && s.count > 0 :: s.dirty || s.inode == Stored(s.devno, s.inum)
    }

    ghost predicate Same(d: nat, i: nat, refs: int, seen: DiskInode)
      reads this`blocks, inodes
    {
      OnDisk(d, i) && Refs(d, i) == refs && Seen(d, i) == seen
    }

    /** All inodes of all devices. */
    ghost function Numbers(): set<(nat, nat)> {
      set d: nat, i: nat | d < |devinfo| && 1 <= i <= devinfo[d].inodes :: (d, i)
    }

    /** The table as clients see it. */
    ghost function View(): (t: Table)
      requires Formatted()
      reads this`blocks, inodes
      ensures t.Keys == Numbers()
    {
      map d: nat, i: nat | d < |devinfo|
          && 1 <= i <= devinfo[d].inodes :: (d, i) := Status(Refs(d, i), (assert OnDisk(d, i); Seen(d, i)))
    }

    lemma ViewIs(t: Table)
      requires Formatted() && t.Keys == Numbers()
      requires forall d: nat, i: nat | (d, i) in t :: Same(d, i, t[(d, i)].refs, t[(d, i)].inode)
      ensures View() == t
    {
      hide Refs, Seen, OnDisk;
    }

    lemma InView(d: nat, i: nat)
      requires Formatted()
      ensures (d, i) in View() <==> OnDisk(d, i)
      ensures (d, i) in View() ==> View()[(d, i)] == Status(Refs(d, i), Seen(d, i))
    {
    }

    /** How many inodes can be open at once. */
    function Room(): nat {
      if inodes == [] then 0 else |inodes| - 1
    }

    /** The slots in use, by number. */
    ghost function InUse(): set<int>
      reads inodes
    {
      set k | 0 < k < |inodes| && inodes[k].count > 0
    }

    ghost function Held(): map<int, (nat, nat)>
      reads inodes
    {
      map k | 0 < k < |inodes| :: (inodes[k].devno, inodes[k].inum)
    }

    /** The table is full exactly if as many inodes are open as there can be. */
    lemma LiveSlots()
      requires Valid()
      ensures |Live(View())| <= Room()
      ensures |Live(View())| == Room() <==> forall k | 0 < k < |inodes| :: inodes[k].count > 0
    {
      hide Live, View;
      assert InUse() <= Held().Keys;
      forall j, k | j in InUse() && k in InUse() && Held()[j] == Held()[k]
        ensures j == k
      {
        SlotsApart(j, k);
      }
      forall d: nat, i: nat
        ensures (d, i) in Live(View()) <==> HeldIn(InUse(), Held(), (d, i))
      {
        LiveSlot(d, i);
      }
      forall k | 0 < k < |inodes|
        ensures k in InUse() <==> inodes[k].count > 0
      {
      }
      hide InUse, Held, Valid;
      HeldCount(InUse(), Held(), Live(View()), Room());
    }

    lemma SlotsApart(j: nat, k: nat)
      requires Valid() && j < |inodes| && k < |inodes| && inodes[j].count > 0 && inodes[k].count > 0
      requires inodes[j].devno == inodes[k].devno && inodes[j].inum == inodes[k].inum
      ensures j == k
    {
      assert inodes[j].Holds(inodes[j].devno, inodes[j].inum) && inodes[k].Holds(inodes[j].devno, inodes[j].inum);
    }

    lemma LiveSlot(d: nat, i: nat)
      requires Valid()
      ensures InUse() <= Held().Keys && ((d, i) in Live(View()) <==> HeldIn(InUse(), Held(), (d, i)))
    {
      hide AtHand, View, Formatted;
      InView(d, i);
      assert forall k | 0 < k < |inodes| :: inodes[k] in inodes;
      if s :| s in inodes && s.Holds(d, i) {
        var k :| 0 <= k < |inodes| && inodes[k] == s;
        assert k in InUse() && Held()[k] == (d, i);
      }
    }

    lemma InViewAll()
      requires Formatted()
      ensures forall e: nat, j: nat | (e, j) in View() :: OnDisk(e, j)
                && View()[(e, j)] == Status(Refs(e, j), Seen(e, j))
    {
    }

    /** A client finds an inode in the slot that holds it, or else on the disk. */
    lemma SeenBy()
      requires Valid()
      ensures forall s, e: nat, j: nat | s in inodes && s.Holds(e, j) ::
                OnDisk(e, j) && Refs(e, j) == s.count > 0 && Seen(e, j) == s.inode
      ensures forall e: nat, j: nat | OnDisk(e, j) && (forall s | s in inodes :: !s.Holds(e, j)) ::
                Refs(e, j) == 0 && Seen(e, j) == Stored(e, j)
    {
      hide AtHand, Formatted, Stored;
    }

    method GetSeen(d: nat, i: nat) returns (xp: Slot?)
      requires Valid() && Clean() && OnDisk(d, i)
      modifies inodes
      ensures Valid() && Clean()
      ensures old(Refs(d, i)) >= 0
      ensures xp == null <==> old(Refs(d, i)) == 0 && forall k | 0 < k < |inodes| :: old(inodes[k].count) > 0
      ensures xp != null ==> xp.inode == old(Seen(d, i))
      ensures forall e: nat, j: nat | OnDisk(e, j) ::
                Same(e, j, old(Refs(e, j)) + if xp != null && e == d && j == i then 1 else 0, old(Seen(e, j)))
    {
      hide AtHand, Formatted, Stored, Refs, Seen;
      SeenBy();
      var err;
      xp, err := GetInode(d, i);
      SeenBy();
      forall e: nat, j: nat | OnDisk(e, j)
        ensures Same(e, j, old(Refs(e, j)) + if xp != null && e == d && j == i then 1 else 0, old(Seen(e, j)))
      {
        if s :| s in inodes && old(s.Holds(e, j)) {
          assert s.Holds(e, j);
          assert e == d && j == i ==> s == xp;
        } else if t :| t in inodes && t.Holds(e, j) {
          assert t == xp;
        }
      }
    }

    method PutSeen(rip: Slot) returns (freed: bool)
      requires Valid() && Clean() && rip in inodes && rip.count > 0
      modifies this`blocks, inodes
      ensures Valid() && Clean()
      ensures rip.devno == old(rip.devno) && rip.inum == old(rip.inum)
      ensures freed <==> old(rip.count) == 1 && old(rip.inode).nlinks == 0
      ensures forall e: nat, j: nat | old(OnDisk(e, j)) ::
                var here := e == rip.devno && j == rip.inum;
                Same(e, j, old(Refs(e, j)) - (if here then 1 else 0),
                     if here && freed then old(Seen(e, j)).(mode := I_NOT_ALLOC) else old(Seen(e, j)))
    {
      hide AtHand, BlockOf, OffsetOf, Stored;
      assert rip.Holds(rip.devno, rip.inum);
      freed := PutInode(rip);
      forall e: nat, j: nat | old(OnDisk(e, j))
        ensures
          var here := e == rip.devno && j == rip.inum;
          Same(e, j, old(Refs(e, j)) - (if here then 1 else 0),
               if here && freed then old(Seen(e, j)).(mode := I_NOT_ALLOC) else old(Seen(e, j)))
      {
        if s :| s in inodes && old(s.Holds(e, j)) {
          assert s == rip || s.Holds(e, j);
        }
      }
    }

    /** A client changes an inode it has open, and marks it dirty. */
    method ChangeSeen(rip: Slot, inode: DiskInode)
      requires Valid() && Clean() && rip in inodes && rip.count > 0
      modifies rip`inode, rip`dirty
      ensures Valid() && Clean()
      ensures forall e: nat, j: nat | OnDisk(e, j) ::
                Same(e, j, old(Refs(e, j)), if e == rip.devno && j == rip.inum then inode else old(Seen(e, j)))
    {
      hide AtHand, BlockOf, OffsetOf;
      rip.inode := inode;
      rip.dirty := true;
      assert rip.Holds(rip.devno, rip.inum);
    }

    /** What a client that has an inode open sees of it. */
    lemma HolderView(rip: Slot)
      requires Valid() && rip in inodes && rip.count > 0
      ensures (rip.devno, rip.inum) in View()
      ensures View()[(rip.devno, rip.inum)] == Status(rip.count, rip.inode)
    {
      hide AtHand;
      assert rip.Holds(rip.devno, rip.inum);
      InView(rip.devno, rip.inum);
    }

    lemma NoHolderView(d: nat, i: nat)
      requires Valid() && OnDisk(d, i) && forall s | s in inodes :: !s.Holds(d, i)
      ensures (d, i) in View() && View()[(d, i)].refs == 0
    {
      InView(d, i);
    }

    method ServeGet(d: nat, i: nat) returns (answer: Answer)
      requires Valid() && Clean() && OnDisk(d, i)
      modifies inodes
      ensures Valid() && Clean() && (d, i) in old(View())
      ensures answer == AnswerTo(old(View()), Room(), Get(d, i))
      ensures View() == Apply(old(View()), Room(), Get(d, i))
    {
      hide Same, Seen, Refs, Clean, OnDisk, View, Numbers, Live;
      ghost var t := View();
      InView(d, i);
      InViewAll();
      LiveSlots();
      var xp := GetSeen(d, i);
      answer := if xp != null then Opened(xp.inode) else Full;
      ghost var t' := Apply(t, Room(), Get(d, i));
      forall e: nat, j: nat | (e, j) in t'
        ensures Same(e, j, t'[(e, j)].refs, t'[(e, j)].inode)
      {
        assert old(OnDisk(e, j));
      }
      ViewIs(t');
    }

    method ServePut(rip: Slot) returns (answer: Answer)
      requires Valid() && Clean() && rip in inodes && rip.count > 0
      modifies this`blocks, inodes
      ensures Valid() && Clean()
      ensures (old(rip.devno), old(rip.inum)) in old(View())
      ensures answer == AnswerTo(old(View()), Room(), Put(old(rip.devno), old(rip.inum)))
      ensures View() == Apply(old(View()), Room(), Put(old(rip.devno), old(rip.inum)))
    {
      hide Same, Seen, Refs, Clean, OnDisk, View, Numbers, Live;
      ghost var t := View();
      HolderView(rip);
      InViewAll();
      var freed := PutSeen(rip);
      answer := Closed(freed);
      ghost var t' := Apply(t, Room(), Put(rip.devno, rip.inum));
      forall e: nat, j: nat | (e, j) in t'
        ensures Same(e, j, t'[(e, j)].refs, t'[(e, j)].inode)
      {
        assert old(OnDisk(e, j));
      }
      ViewIs(t');
    }

    method ServeChange(rip: Slot, inode: DiskInode)
      requires Valid() && Clean() && rip in inodes && rip.count > 0
      modifies rip`inode, rip`dirty
      ensures Valid() && Clean() && (rip.devno, rip.inum) in old(View())
      ensures AnswerTo(old(View()), Room(), Change(rip.devno, rip.inum, inode)) == Changed
      ensures View() == Apply(old(View()), Room(), Change(rip.devno, rip.inum, inode))
    {
      hide Same, Seen, Refs, Clean, OnDisk, View, Numbers, Live;
      ghost var t := View();
      HolderView(rip);
      InViewAll();
      ChangeSeen(rip, inode);
      ghost var t' := Apply(t, Room(), Change(rip.devno, rip.inum, inode));
      forall e: nat, j: nat | (e, j) in t'
        ensures Same(e, j, t'[(e, j)].refs, t'[(e, j)].inode)
      {
        assert old(OnDisk(e, j));
      }
      ViewIs(t');
    }

    method Serve(r: Request) returns (answer: Answer)
      requires Valid() && Clean() && OnDisk(r.d, r.i)
      modifies this`blocks, inodes
      ensures Valid() && Clean() && (r.d, r.i) in old(View())
      ensures answer == AnswerTo(old(View()), Room(), r)
      ensures View() == Apply(old(View()), Room(), r)
    {
      hide View, Clean, Live;
      InView(r.d, r.i);
      if r.Get? {
        answer := ServeGet(r.d, r.i);
      } else if rip :| rip in inodes && rip.Holds(r.d, r.i) {
        if r.Put? {
          answer := ServePut(rip);
        } else {
          ServeChange(rip, r.inode);
          answer := Changed;
        }
      } else {
        NoHolderView(r.d, r.i);
        answer := NotOpen;
      }
    }

    /** Over every run of gets, changes and puts, the answers and the table are those that the
        requests determine: with `CountIsBalance` and `LastChangeStays`, an inode's count is
        gets minus puts, and whoever opens it finds it as it was left, whether it stayed in the
        table or not. */
    method Replay(requests: seq<Request>) returns (answers: seq<Answer>)
      requires Valid() && Clean()
      requires forall r | r in requests :: OnDisk(r.d, r.i)
      modifies this`blocks, inodes
      ensures Valid() && Clean()
      ensures Within(old(View()), requests) && Answered(old(View()), Room(), requests, answers)
      ensures View() == After(old(View()), Room(), requests)
    {
      hide Apply, AnswerTo, After, Answered, View, Clean, OnDisk;
      ghost var t := View();
      answers := [];
      NoRequests(t, Room());
      InViewAll();
      forall r | r in requests
        ensures (r.d, r.i) in t
      {
        InView(r.d, r.i);
      }
      for k := 0 to |requests|
        invariant Valid() && Clean()
        invariant requests[..k] == [] || k > 0
        invariant Answered(t, Room(), requests[..k], answers) && View() == After(t, Room(), requests[..k])
      {
        assert requests[k] in requests;
        InView(requests[k].d, requests[k].i);
        var answer := Serve(requests[k]);
        OneMore(t, Room(), requests, k, answers);
        answers := answers + [answer];
      }
      assert requests[..|requests|] == requests;
    }
  }
}
