/** The file server's requests as steps over the file's bytes: the chunks of `read` and
    `write`, as the protocol in Server.dfy interleaves them. */
module FileServer {
  import opened Common
  import opened Disk
  import opened Bitmaps
  import opened ZoneTree
  import opened ZoneMap
  import opened ZoneNeeds
  import opened FileBlocks
  import opened FileData
  import opened Server

  /** `room` is how many chunks the disk has room for; a write stops at the first that does
      not fit. */
  datatype Task =
    | Reading(pos: nat, len: nat, got: seq<byte>)
    | Writing(pos: nat, data: seq<byte>, room: nat, cum: nat)
    | Answered(answer: Answer, readOnly: bool)

  datatype Answer = Got(bytes: seq<byte>, err: Error) | Wrote(n: nat, err: Error)

  /** The bytes from `pos` to the end of its block. */
  function ToBlockEnd(blocksize: nat, pos: nat): (n: nat)
    requires 0 < blocksize
    ensures 0 < n <= blocksize
  {
    blocksize - Rem(pos, blocksize)
  }

  function Min(a: nat, b: nat): nat {
    if a < b then a else b
  }

  function ReadStep(blocksize: nat, t: Task, c: seq<byte>): Task
    requires t.Reading? && 0 < blocksize
  {
    var at := t.pos + |t.got|;
    if |t.got| >= t.len || at >= |c| then Answered(Got(t.got, if t.pos >= |c| then EOF else OK), true)
    else
      var chunk := Min(ToBlockEnd(blocksize, at), Min(t.len - |t.got|, |c| - at));
      t.(got := t.got + c[at..at + chunk])
  }

  function WriteStep(blocksize: nat, maxsize: nat, t: Task, c: seq<byte>): (Task, seq<byte>)
    requires t.Writing? && 0 < blocksize
  {
    var at := t.pos + t.cum;
    if t.pos + |t.data| > maxsize then (Answered(Wrote(0, EFBIG), false), c)
    else if t.cum >= |t.data| then (Answered(Wrote(t.cum, OK), false), c)
    else if t.room == 0 || at > |c| then (Answered(Wrote(t.cum, ENOSPC), false), c)
    else
      var chunk := Min(ToBlockEnd(blocksize, at), |t.data| - t.cum);
      (t.(cum := t.cum + chunk, room := t.room - 1), Splice(c, at, t.data[t.cum..t.cum + chunk]))
  }

  function FileOps(blocksize: nat, maxsize: nat): Ops<seq<byte>, Task, Answer>
    requires 0 < blocksize
  {
    Ops(
      (t: Task, c: seq<byte>) =>
        match t
        case Reading(_, _, _) => (ReadStep(blocksize, t, c), c)
        case Writing(_, _, _, _) => WriteStep(blocksize, maxsize, t, c)
        case Answered(_, _) => (t, c),
      (t: Task) => if t.Answered? then Some(t.answer) else None,
      (t: Task) => 0,
      (t: Task) =>
        match t
        case Reading(_, len, got) => if |got| <= len then 1 + len - |got| else 1
        case Writing(_, data, _, cum) => if cum <= |data| then 1 + |data| - cum else 1
        case Answered(_, _) => 0,
      (t: Task) => t.Reading? || (t.Answered? && t.readOnly))
  }

  lemma FileOpsValid(blocksize: nat, maxsize: nat)
    requires 0 < blocksize
    ensures Valid(FileOps(blocksize, maxsize))
  {
  }

  /** A read on its own answers with the slice of the file it asks for. */
  lemma {:induction false} ReadAlone(blocksize: nat, maxsize: nat, pos: nat, len: nat, got: seq<byte>, c: seq<byte>)
    requires 0 < blocksize && pos + |got| <= |c| && |got| <= len
    requires got == c[pos..pos + |got|]
    ensures Valid(FileOps(blocksize, maxsize))
    ensures
      var (a, c') := Run(FileOps(blocksize, maxsize), Reading(pos, len, got), c);
      a.Got? && ReadAnswers(c, pos, len, a.bytes, a.err) && c' == c
    decreases len - |got|
  {
    FileOpsValid(blocksize, maxsize);
    var t := Reading(pos, len, got);
    var t' := ReadStep(blocksize, t, c);
    if t'.Reading? {
      assert t'.got == c[pos..pos + |t'.got|];
      ReadAlone(blocksize, maxsize, pos, len, t'.got, c);
    }
  }

  /** A write on its own splices in what there was room for, which is all of it if there was
      room for every chunk. */
  lemma {:induction false} WriteAlone(blocksize: nat, maxsize: nat, pos: nat, data: seq<byte>, room: nat, cum: nat,
        c: seq<byte>)
    requires 0 < blocksize && pos <= |c| && cum <= |data| && (cum == 0 || pos + |data| <= maxsize)
    ensures Valid(FileOps(blocksize, maxsize))
    ensures
      var (a, c') := Run(FileOps(blocksize, maxsize), Writing(pos, data, room, cum), Splice(c, pos, data[..cum]));
      a.Wrote? && WriteAnswers(maxsize, c, pos, data, a.n, a.err, c') && (|data| - cum <= room ==> a.err != ENOSPC)
    decreases |data| - cum
  {
    FileOpsValid(blocksize, maxsize);
    var s := Splice(c, pos, data[..cum]);
    var t := Writing(pos, data, room, cum);
    var (t', s') := WriteStep(blocksize, maxsize, t, s);
    if t'.Writing? {
      SpliceSplice(c, pos, data[..cum], data[cum..t'.cum]);
      assert data[..cum] + data[cum..t'.cum] == data[..t'.cum];
      WriteAlone(blocksize, maxsize, pos, data, t'.room, t'.cum, c);
    } else {
      assert Run(FileOps(blocksize, maxsize), t', s') == (t'.answer, s');
      SpliceNone(c, pos, data);
    }
  }

  /** A request as it is submitted, within the file `c`. */
  predicate Fresh(t: Task, c: seq<byte>) {
    (t.Reading? && t.got == [] && t.pos <= |c|) || (t.Writing? && t.cum == 0 && t.pos <= |c|)
  }

  /** A request on a sequence of bytes, and its answer: what `Read` and `Write` of FileData.dfy
      promise of the file on the disk. */
  ghost predicate FileAnswers(maxsize: nat, t: Task, c: seq<byte>, a: Answer, c': seq<byte>)
    requires Fresh(t, c)
  {
    match t
    case Reading(pos, len, _) => a.Got? && ReadAnswers(c, pos, len, a.bytes, a.err) && c' == c
    case Writing(pos, data, room, _) =>
      a.Wrote? && WriteAnswers(maxsize, c, pos, data, a.n, a.err, c') && (|data| <= room ==> a.err != ENOSPC)
  }

  /** At every point of every run of the server, every answer given is the answer of a plain
      sequence of bytes that takes the requests one at a time, in the order of submission: no
      read sees a write half done. */
  lemma AnswersOfAFile(blocksize: nat, maxsize: nat, s0: seq<byte>, states: seq<State<seq<byte>, Task, Answer>>,
        actions: seq<Action<Task>>, i: nat, k: nat)
    requires 0 < blocksize && Valid(FileOps(blocksize, maxsize))
    requires IsRun(FileOps(blocksize, maxsize), s0, states, actions) && i < |states| && k in states[i].done
    ensures k < |states[i].log| <= |states[i].submitted| && states[i].log[k] == states[i].submitted[k]
    ensures
      var ops, log := FileOps(blocksize, maxsize), states[i].log;
      var c := SeqState(ops, s0, log[..k]);
      Fresh(log[k], c) ==> FileAnswers(maxsize, log[k], c, states[i].done[k], SeqState(ops, s0, log[..k + 1]))
  {
    Linearizable(FileOps(blocksize, maxsize), s0, states, actions, i);
    var log := states[i].log;
    var c := SeqState(FileOps(blocksize, maxsize), s0, log[..k]);
    assert log[..k + 1][..k] == log[..k];
    if Fresh(log[k], c) {
      match log[k]
      case Reading(pos, len, _) => ReadAlone(blocksize, maxsize, pos, len, [], c);
      case Writing(pos, data, room, _) =>
        SpliceNone(c, pos, data);
        WriteAlone(blocksize, maxsize, pos, data, room, 0, c);
    }
  }

  // ----- the steps on the disk

  /** The bytes of a file of `n` bytes on the disk. */
  ghost function OnDisk(rip: CacheInode, cache: BlockCache, n: nat): (c: seq<byte>)
    requires FileState(rip, cache, n)
    reads rip`zone, cache, rip.bitmap
    ensures |c| == n
  {
    Bytes(rip.devinfo, rip.View(cache), cache.blocks, n)
  }

  /** What a write of `chunk` bytes promises of the disk is what one step does to the bytes:
      there is room for the chunk exactly if it succeeds. */
  lemma ChunkIsStep(g: DeviceInfo, pos: nat, data: seq<byte>, cum: nat, room: nat, chunk: nat, err: Error, v: View,
        blocks: map<nat, Block>, marks: set<nat>, n: nat, v': View, blocks': map<nat, Block>, marks': set<nat>, n': nat)
    requires 0 < g.blocksize && cum < |data| && pos + |data| <= g.maxsize
    requires chunk == Min(ToBlockEnd(g.blocksize, pos + cum), |data| - cum)
    requires err == OK || err == ENOSPC
    requires err == OK <==> room > 0
    requires FileData.Wrote(g, v, blocks, marks, n, v', blocks', marks', n', pos + cum,
                   if err == OK then data[cum..cum + chunk] else [])
    ensures
      WriteStep(g.blocksize, g.maxsize, Writing(pos, data, room, cum), Bytes(g, v, blocks, n))
      == (if err == OK then Writing(pos, data, room - 1, cum + chunk) else Answered(Wrote(cum, err), false),
          Bytes(g, v', blocks', n'))
  {
    hide DenseTo, Bytes, Accounted, TreeZones, Untouched, Tight, TreeBlocks, Splice, Rem;
    if err != OK {
      SpliceNothing(Bytes(g, v, blocks, n), pos + cum);
    }
  }

  /** A chunk of a write goes to the disk as one step of the request: the file has the bytes
      that the step leaves, and the request goes on or is answered as it says. */
  method WriteOnDisk(rip: CacheInode, pos: nat, data: seq<byte>, cum: nat, cache: BlockCache, ghost n: nat)
      returns (t: Task)
    requires FileState(rip, cache, n) && n == (if rip.size < pos + cum then pos + cum else rip.size)
    requires cum < |data| && pos + |data| <= rip.devinfo.maxsize <= MaxBytes(rip.devinfo)
    requires rip.Owned(cache) && 0 < rip.devinfo.blocksize && CanHold(rip, cache, pos + cum)
    modifies rip`zone, rip`dirty, cache, rip.bitmap`maps, rip.bitmap`zSearch
    ensures
      var n' := if t.Writing? && n < pos + t.cum then pos + t.cum else n;
      && FileState(rip, cache, n')
      && forall room: nat | t.Writing? <==> room > 0 ::
           WriteStep(rip.devinfo.blocksize, rip.devinfo.maxsize, Writing(pos, data, room, cum),
                     old(OnDisk(rip, cache, n)))
           == (if t.Writing? then t.(room := room - 1) else t, OnDisk(rip, cache, n'))
    ensures t.Writing? || (t.Answered? && NearlyFull(rip.bitmap))
    ensures t.Writing? <==>
            Needs(old(rip.View(cache)), BlockNode(rip.devinfo, Quot(pos + cum, rip.devinfo.blocksize))) <=
            old(rip.bitmap.FreeZones())
  {
    hide FileState, CanHold, MaxBytes, WriteStep, NearlyFull, DenseTo, TypedFile, Bitmap.Ready, Bitmap.Zones,
        FileData.Wrote, TreeZones, ViewOf, Rem, Bytes, Nodes, Sound, Distinct, Needs, Bitmap.FreeZones, DataZones,
        BlockNode, TookLacking;
    FileFacts(rip, cache, n);
    var g := rip.devinfo;
    var off := Rem(pos + cum, g.blocksize);
    var chunk := Min(ToBlockEnd(g.blocksize, pos + cum), |data| - cum);
    ghost var v, blocks, marks := rip.View(cache), cache.blocks, rip.bitmap.Zones();
    var err := WriteChunk(rip, pos + cum, off, chunk, data[cum..], cache, n);
    assert data[cum..][..chunk] == data[cum..cum + chunk];
    ghost var n' := if err == OK && n < pos + cum + chunk then pos + cum + chunk else n;
    FileFacts(rip, cache, n');
    t := if err == OK then Writing(pos, data, 0, cum + chunk) else Answered(Wrote(cum, err), false);
    forall room: nat | err == OK <==> room > 0
      ensures
        WriteStep(g.blocksize, g.maxsize, Writing(pos, data, room, cum), Bytes(g, v, blocks, n))
        == (if t.Writing? then t.(room := room - 1) else t, OnDisk(rip, cache, n'))
    {
      ChunkIsStep(g, pos, data, cum, room, chunk, err, v, blocks, marks, n, rip.View(cache), cache.blocks,
          rip.bitmap.Zones(), n');
    }
  }

  lemma ChunkReadIsStep(blocksize: nat, pos: nat, len: nat, n: nat, chunk: nat, c: seq<byte>)
    requires 0 < blocksize && n < len && pos + n < |c|
    requires chunk == Min(ToBlockEnd(blocksize, pos + n), Min(len - n, |c| - (pos + n)))
    ensures ReadStep(blocksize, Reading(pos, len, c[pos..pos + n]), c) == Reading(pos, len, c[pos..pos + n + chunk])
  {
    assert c[pos..pos + n + chunk] == c[pos..pos + n] + c[pos + n..pos + n + chunk];
  }

  lemma GotIs(b: array<byte>, was: seq<byte>, c: seq<byte>, pos: nat, n: nat)
    requires HasRead(b, was, c, pos, n)
    ensures n <= b.Length && pos + n <= |c| && b[..n] == c[pos..pos + n]
  {
  }

  /** A chunk of a read comes from the disk as one step of the request, and the file stays. */
  method ReadOnDisk(rip: CacheInode, b: array<byte>, pos: nat, n: nat, cache: BlockCache, ghost was: seq<byte>)
      returns (t: Task)
    requires ValidFile(rip, cache) && pos + n < rip.size && n < b.Length
    requires HasRead(b, was, Contents(rip, cache), pos, n)
    modifies b, cache
    ensures ValidFile(rip, cache) && Contents(rip, cache) == old(Contents(rip, cache))
    ensures cache.blocks == old(cache.blocks) && 0 < rip.devinfo.blocksize
    ensures t == ReadStep(rip.devinfo.blocksize, Reading(pos, b.Length, old(b[..n])), old(Contents(rip, cache)))
    ensures t.Reading? && t.got == b[..|t.got|] && HasRead(b, was, Contents(rip, cache), pos, |t.got|)
  {
    hide ValidFile, Contents, ReadStep, HasRead;
    SomeBytes(rip, cache);
    ghost var c := Contents(rip, cache);
    GotIs(b, was, c, pos, n);
    var chunk := Min(ToBlockEnd(rip.devinfo.blocksize, pos + n), Min(b.Length - n, rip.size - (pos + n)));
    ReadChunk(rip, b, pos, n, chunk, cache, was);
    GotIs(b, was, c, pos, n + chunk);
    ChunkReadIsStep(rip.devinfo.blocksize, pos, b.Length, n, chunk, c);
    t := Reading(pos, b.Length, b[..n + chunk]);
  }
}
