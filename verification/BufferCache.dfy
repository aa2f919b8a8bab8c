/** The block cache: a table of buffers found through hash chains, and reused in the order of
    an intrusive doubly linked list. */
module BufferCache {
  import opened Common

  const NO_DEV: int := -1
  const NR_BUFS: nat := 1280

  datatype Search = NORMAL | NO_READ | PREFETCH

  // ----- the hash

  /** Bitwise and. */
  function BitAnd(a: nat, m: nat): (r: nat)
    ensures r <= m
  {
    if a == 0 || m == 0 then 0 else (a % 2) * (m % 2) + 2 * BitAnd(a / 2, m / 2)
  }

  /** With a table of a power of two, the hash is the remainder. */
  lemma {:induction false} HashIsRemainder(a: nat, k: nat)
    ensures BitAnd(a, Pow2(k) - 1) == Rem(a, Pow2(k))
  {
    if k == 0 || a == 0 {
      DivModUnique(a, Pow2(k), if k == 0 then a else 0, 0);
    } else {
      hide Rem;
      HashIsRemainder(a / 2, k - 1);
      HashStep(a, Pow2(k - 1));
    }
  }

  lemma HashStep(a: nat, p: nat)
    requires a > 0 && p > 0 && BitAnd(a / 2, p - 1) == Rem(a / 2, p)
    ensures BitAnd(a, 2 * p - 1) == Rem(a, 2 * p)
  {
    HalfAndRest(a, p);
    hide Rem;
    var m := 2 * p - 1;
    assert BitAnd(a, m) == (a % 2) * (m % 2) + 2 * BitAnd(a / 2, m / 2);
  }

  lemma HalfAndRest(a: nat, p: nat)
    requires p > 0
    ensures Rem(a, 2 * p) == a % 2 + 2 * Rem(a / 2, p)
    ensures (2 * p - 1) % 2 == 1 && (2 * p - 1) / 2 == p - 1
  {
    var q, r := (a / 2) / p, (a / 2) % p;
    DivMod(a / 2, p);
    assert q * (2 * p) == 2 * (q * p);
    DivModUnique(a, 2 * p, q, 2 * r + a % 2);
  }

  // ----- buffers

  class LruBuf {
    var blockno: nat
    var devno: int
    var count: int
    var next: LruBuf?
    var prev: LruBuf?
    var bHash: LruBuf?

    constructor ()
      ensures blockno == 0 && devno == NO_DEV && count == 0
      ensures next == null && prev == null && bHash == null
    {
      blockno, devno, count := 0, NO_DEV, 0;
      next, prev, bHash := null, null, null;
    }
  }

  /** Element `i` of a list, or nil past its ends. */
  function At(s: seq<LruBuf>, i: int): LruBuf? {
    if 0 <= i < |s| then s[i] else null
  }

  lemma AtIn(s: seq<LruBuf>, i: int)
    ensures At(s, i) == null || At(s, i) in s
  {
  }

  lemma AtIs(s: seq<LruBuf>, i: nat)
    ensures At(s, i) == if i < |s| then s[i] else null
  {
  }

  ghost predicate NoDup(s: seq<LruBuf>) {
    forall i, j | 0 <= i < j < |s| :: s[i] != s[j]
  }

  /** A buffer that holds a block of a real device. */
  predicate Holds(b: LruBuf, dev: int, bnum: nat)
    reads b`devno, b`blockno
  {
    b.devno == dev && b.blockno == bnum
  }

  // ----- hash chains as values

  type Links = map<LruBuf, LruBuf?>

  /** Following `link` from `head` on gives `chain`, and then ends. */
  ghost predicate ChainOf(head: LruBuf?, chain: seq<LruBuf>, link: Links) {
    && head == At(chain, 0)
    && forall i | 0 <= i < |chain| :: chain[i] in link && link[chain[i]] == At(chain, i + 1)
  }

  ghost predicate ChainsOf(heads: seq<LruBuf?>, chains: seq<seq<LruBuf>>, link: Links) {
    && |heads| == |chains|
    && forall h | 0 <= h < |chains| :: ChainOf(heads[h], chains[h], link)
  }

  /** The chains hold every buffer exactly once, except `out`, and each under its hash. */
  ghost predicate Partitioned(chains: seq<seq<LruBuf>>, number: map<LruBuf, nat>, hashMask: nat, out: LruBuf?) {
    && |chains| == hashMask + 1
    && (forall h, i | 0 <= h < |chains| && 0 <= i < |chains[h]| ::
          chains[h][i] in number && chains[h][i] != out && BitAnd(number[chains[h][i]], hashMask) == h)
    && (forall h | 0 <= h < |chains| :: NoDup(chains[h]))
    && (forall b | b in number && b != out :: b in chains[BitAnd(number[b], hashMask)])
  }

  function Without(s: seq<LruBuf>, j: nat): (r: seq<LruBuf>)
    requires j < |s|
    ensures |r| == |s| - 1
    ensures forall i | 0 <= i < |r| :: r[i] == s[if i < j then i else i + 1]
  {
    s[..j] + s[j + 1..]
  }

  lemma WithoutOne(s: seq<LruBuf>, j: nat)
    requires NoDup(s) && j < |s|
    ensures NoDup(Without(s, j)) && s[j] !in Without(s, j)
    ensures forall b | b in s && b != s[j] :: b in Without(s, j)
  {
    forall b | b in s && b != s[j]
      ensures b in Without(s, j)
    {
      var i :| 0 <= i < |s| && s[i] == b;
      assert b == Without(s, j)[if i < j then i else i - 1];
    }
  }

  /** Taking a buffer out of its chain. */
  lemma CutPartition(chains: seq<seq<LruBuf>>, number: map<LruBuf, nat>, hashMask: nat, h: nat, j: nat)
    requires Partitioned(chains, number, hashMask, null) && h < |chains| && j < |chains[h]|
    ensures Partitioned(chains[h := Without(chains[h], j)], number, hashMask, chains[h][j])
  {
    hide NoDup, BitAnd, Without;
    WithoutOne(chains[h], j);
    forall i | 0 <= i < |chains[h]| - 1
      ensures Without(chains[h], j)[i] in chains[h] && Without(chains[h], j)[i] != chains[h][j]
    {
      assert Without(chains[h], j)[i] in Without(chains[h], j);
    }
  }

  lemma CutOwnChain(head: LruBuf?, chain: seq<LruBuf>, link: Links, j: nat)
    requires ChainOf(head, chain, link) && NoDup(chain) && j < |chain|
    ensures forall x | x in chain :: x in link
    ensures j == 0 ==> ChainOf(At(chain, 1), Without(chain, j), link)
    ensures j > 0 ==> ChainOf(head, Without(chain, j), link[chain[j - 1] := At(chain, j + 1)])
  {
  }

  lemma CutChain(heads: seq<LruBuf?>, chains: seq<seq<LruBuf>>, link: Links, number: map<LruBuf, nat>, hashMask: nat,
        h: nat, j: nat)
    requires Partitioned(chains, number, hashMask, null) && ChainsOf(heads, chains, link)
    requires h < |chains| && j < |chains[h]|
    ensures forall x | x in chains[h] :: x in link
    ensures
      var chain := chains[h];
      ChainsOf(if j == 0 then heads[h := At(chain, 1)] else heads,
               chains[h := Without(chain, j)],
               if j == 0 then link else link[chain[j - 1] := At(chain, j + 1)])
  {
    var chain := chains[h];
    CutOwnChain(heads[h], chain, link, j);
    if j > 0 {
      forall k | 0 <= k < |chains| && k != h
        ensures ChainOf(heads[k], chains[k], link[chain[j - 1] := At(chain, j + 1)])
      {
        assert BitAnd(number[chain[j - 1]], hashMask) == h;
        OtherChain(heads[k], chains[k], link, chain[j - 1], At(chain, j + 1));
      }
    }
    hide ChainOf, Partitioned;
  }

  /** Putting a buffer at the head of its chain. */
  lemma PushPartition(chains: seq<seq<LruBuf>>, number: map<LruBuf, nat>, hashMask: nat, bp: LruBuf)
    requires Partitioned(chains, number, hashMask, bp) && bp in number
    ensures
      var h := BitAnd(number[bp], hashMask);
      Partitioned(chains[h := [bp] + chains[h]], number, hashMask, null)
  {
  }

  /** Links of buffers outside a chain do not matter to it. */
  lemma OtherChain(head: LruBuf?, chain: seq<LruBuf>, link: Links, b: LruBuf, next: LruBuf?)
    requires ChainOf(head, chain, link) && b !in chain
    ensures ChainOf(head, chain, link[b := next])
  {
  }

  lemma PushChain(heads: seq<LruBuf?>, chains: seq<seq<LruBuf>>, link: Links, number: map<LruBuf, nat>,
        hashMask: nat, bp: LruBuf, h: nat)
    requires Partitioned(chains, number, hashMask, bp) && ChainsOf(heads, chains, link) && h < |chains|
    ensures ChainsOf(heads[h := bp], chains[h := [bp] + chains[h]], link[bp := heads[h]])
  {
    forall k | 0 <= k < |chains|
      ensures ChainOf(heads[k], chains[k], link[bp := heads[h]])
    {
      OtherChain(heads[k], chains[k], link, bp, heads[h]);
    }
  }

  // ----- the list as a value

  /** The pointers describe the list `s`, both ways. */
  ghost predicate ListOf(front: LruBuf?, rear: LruBuf?, s: seq<LruBuf>, next: Links, prev: Links) {
    && front == At(s, 0)
    && rear == At(s, |s| - 1)
    && forall i | 0 <= i < |s| ::
         s[i] in next && s[i] in prev && next[s[i]] == At(s, i + 1) && prev[s[i]] == At(s, i - 1)
  }

  lemma RemoveListed(front: LruBuf?, rear: LruBuf?, s: seq<LruBuf>, next: Links, prev: Links)
    requires ListOf(front, rear, s, next, prev) && NoDup(s) && s != []
    ensures s[0] in next && s[0] in prev && next[s[0]] == At(s, 1) && prev[s[0]] == null
    ensures
      var n := At(s, 1);
      ListOf(n, if n != null then rear else null, s[1..], next, if n != null then prev[n := null] else prev)
  {
  }

  lemma AppendListed(front: LruBuf?, rear: LruBuf?, s: seq<LruBuf>, next: Links, prev: Links, b: LruBuf)
    requires ListOf(front, rear, s, next, prev) && NoDup(s) && b !in s
    ensures ListOf(if rear == null then b else front, b, s + [b],
                   if rear == null then next[b := null] else next[b := null][rear := b], prev[b := rear])
  {
  }

  lemma PrependListed(front: LruBuf?, rear: LruBuf?, s: seq<LruBuf>, next: Links, prev: Links, b: LruBuf)
    requires ListOf(front, rear, s, next, prev) && NoDup(s) && b !in s
    ensures ListOf(b, if front == null then b else rear, [b] + s,
                   next[b := front], if front == null then prev[b := null] else prev[b := null][front := b])
  {
  }

  /** Appending a buffer that is on the list already: going back from the end leads to that
      buffer a second time. */
  lemma {:induction false} BackToTwice(s: seq<LruBuf>, t: seq<LruBuf>, next: Links, prev: Links, front: LruBuf?,
        rear: LruBuf?, i: nat, k: nat)
    requires i < |s| && 0 <= k <= |s| - 1 - i && NoDup(s)
    requires ListOf(front, rear, t, next, prev) && |t| > 0 && t[|t| - 1] == s[i]
    requires forall j | i < j < |s| :: s[j] in prev && prev[s[j]] == s[j - 1]
    requires s[i] in prev && prev[s[i]] == s[|s| - 1]
    ensures |t| - 2 - k >= 0 && t[|t| - 2 - k] == s[|s| - 1 - k]
  {
    if k > 0 {
      BackToTwice(s, t, next, prev, front, rear, i, k - 1);
    }
    var at, j := |t| - 1 - k, if k == 0 then i else |s| - k;
    assert t[at] == s[j];
    assert prev[s[j]] == s[|s| - 1 - k];
    assert prev[t[at]] == At(t, at - 1);
  }

  lemma AppendTwice(front: LruBuf?, rear: LruBuf?, s: seq<LruBuf>, next: Links, prev: Links, i: nat, t: seq<LruBuf>)
    requires ListOf(front, rear, s, next, prev) && NoDup(s) && i < |s|
    ensures rear != null && !ListOf(front, s[i], t, next[s[i] := null][rear := s[i]], prev[s[i] := rear])
  {
    var next', prev' := next[s[i] := null][rear := s[i]], prev[s[i] := rear];
    if ListOf(front, s[i], t, next', prev') {
      assert t[|t| - 1] == s[i] && next'[s[i]] == null;
      forall j | i < j < |s|
        ensures s[j] in prev' && prev'[s[j]] == s[j - 1]
      {
        assert prev[s[j]] == At(s, j - 1);
      }
      BackToTwice(s, t, next', prev', front, s[i], i, |s| - 1 - i);
    }
  }

  lemma {:induction false} OnToTwice(s: seq<LruBuf>, t: seq<LruBuf>, next: Links, prev: Links, front: LruBuf?,
        rear: LruBuf?, i: nat, k: nat)
    requires i < |s| && k <= i && NoDup(s)
    requires ListOf(front, rear, t, next, prev) && |t| > 0 && t[0] == s[i]
    requires forall j | 0 <= j < i :: s[j] in next && next[s[j]] == s[j + 1]
    requires s[i] in next && next[s[i]] == s[0]
    ensures k + 1 < |t| && t[k + 1] == s[k]
  {
    if k > 0 {
      OnToTwice(s, t, next, prev, front, rear, i, k - 1);
    }
    var j := if k == 0 then i else k - 1;
    assert t[k] == s[j];
    assert next[s[j]] == s[k];
    assert next[t[k]] == At(t, k + 1);
  }

  lemma PrependTwice(front: LruBuf?, rear: LruBuf?, s: seq<LruBuf>, next: Links, prev: Links, i: nat, t: seq<LruBuf>)
    requires ListOf(front, rear, s, next, prev) && NoDup(s) && i < |s|
    ensures front != null && !ListOf(s[i], rear, t, next[s[i] := front], prev[s[i] := null][front := s[i]])
  {
    var next', prev' := next[s[i] := front], prev[s[i] := null][front := s[i]];
    if ListOf(s[i], rear, t, next', prev') {
      assert t[0] == s[i] && prev'[s[i]] == null;
      OnToTwice(s, t, next', prev', s[i], rear, i, i);
    }
  }

  /** All pointers lead to buffers of the table. */
  ghost predicate ClosedIn(buf: seq<LruBuf>, front: LruBuf?, rear: LruBuf?, next: Links, prev: Links) {
    && (front == null || front in buf)
    && (rear == null || rear in buf)
    && (forall b | b in buf :: b in next && (next[b] == null || next[b] in buf))
    && (forall b | b in buf :: b in prev && (prev[b] == null || prev[b] in buf))
  }

  lemma RelistedClosed(buf: seq<LruBuf>, f: LruBuf?, r: LruBuf?, n: Links, p: Links, bp: LruBuf, oneShot: bool,
        f': LruBuf?, r': LruBuf?, n': Links, p': Links)
    requires ClosedIn(buf, f, r, n, p) && bp in buf && Relisted(f, r, n, p, bp, oneShot, f', r', n', p')
    ensures ClosedIn(buf, f', r', n', p')
  {
  }

  lemma UnlinkedClosed(buf: seq<LruBuf>, f: LruBuf?, r: LruBuf?, n: Links, p: Links, b: LruBuf)
    requires ClosedIn(buf, f, r, n, p) && b in buf
    ensures b in n && b in p
    ensures ClosedIn(buf, if p[b] != null then f else n[b], if n[b] != null then r else p[b],
                     if p[b] != null then n[p[b] := n[b]] else n, if n[b] != null then p[n[b] := p[b]] else p)
  {
  }

  /** What putting `bp` at an end of the list does to the pointers. */
  ghost predicate Relisted(f: LruBuf?, r: LruBuf?, n: Links, p: Links, bp: LruBuf, oneShot: bool, f': LruBuf?,
        r': LruBuf?, n': Links, p': Links) {
    if oneShot then
      && f' == bp && r' == (if f == null then bp else r)
      && n' == n[bp := f] && p' == if f == null then p[bp := null] else p[bp := null][f := bp]
    else
      && r' == bp && f' == (if r == null then bp else f)
      && p' == p[bp := r] && n' == if r == null then n[bp := null] else n[bp := null][r := bp]
  }

  /** A buffer that was not on the list is now at its end. */
  lemma RelistedOnce(f: LruBuf?, r: LruBuf?, s: seq<LruBuf>, n: Links, p: Links, bp: LruBuf, oneShot: bool,
        f': LruBuf?, r': LruBuf?, n': Links, p': Links)
    requires ListOf(f, r, s, n, p) && NoDup(s) && bp !in s && Relisted(f, r, n, p, bp, oneShot, f', r', n', p')
    ensures ListOf(f', r', if oneShot then [bp] + s else s + [bp], n', p')
    ensures NoDup(if oneShot then [bp] + s else s + [bp])
  {
    if oneShot {
      PrependListed(f, r, s, n, p, bp);
    } else {
      AppendListed(f, r, s, n, p, bp);
    }
  }

  /** A buffer that was on the list already breaks it: the pointers no longer describe any
      list at all. */
  lemma RelistedTwice(f: LruBuf?, r: LruBuf?, s: seq<LruBuf>, n: Links, p: Links, bp: LruBuf, oneShot: bool,
        f': LruBuf?, r': LruBuf?, n': Links, p': Links, t: seq<LruBuf>)
    requires ListOf(f, r, s, n, p) && NoDup(s) && bp in s && Relisted(f, r, n, p, bp, oneShot, f', r', n', p')
    ensures !ListOf(f', r', t, n', p')
  {
    var i :| 0 <= i < |s| && s[i] == bp;
    if oneShot {
      PrependTwice(f, r, s, n, p, i, t);
    } else {
      AppendTwice(f, r, s, n, p, i, t);
    }
  }

  // ----- a new table: all buffers on the first chain, and on the list

  lemma FirstPartition(buf: seq<LruBuf>, chains: seq<seq<LruBuf>>, number: map<LruBuf, nat>, hashMask: nat)
    requires |chains| == hashMask + 1 && NoDup(buf)
    requires forall h | 0 <= h < |chains| :: chains[h] == if h == 0 then buf else []
    requires forall b :: b in number <==> b in buf
    requires forall b | b in buf :: number[b] == 0
    ensures Partitioned(chains, number, hashMask, null)
  {
    assert BitAnd(0, hashMask) == 0;
  }

  lemma FirstChain(buf: seq<LruBuf>, heads: seq<LruBuf?>, chains: seq<seq<LruBuf>>, link: Links)
    requires |buf| > 0 && |heads| == |chains|
    requires forall h | 0 <= h < |chains| :: chains[h] == if h == 0 then buf else []
    requires forall h | 0 <= h < |heads| :: heads[h] == if h == 0 then buf[0] else null
    requires forall j | 0 <= j < |buf| :: buf[j] in link && link[buf[j]] == At(buf, j + 1)
    ensures ChainsOf(heads, chains, link)
  {
  }

  lemma FirstList(buf: seq<LruBuf>, next: Links, prev: Links)
    requires |buf| > 0
    requires forall j | 0 <= j < |buf| :: buf[j] in next && next[buf[j]] == At(buf, j + 1)
    requires forall j | 0 <= j < |buf| :: buf[j] in prev && prev[buf[j]] == At(buf, j - 1)
    ensures ListOf(buf[0], buf[|buf| - 1], buf, next, prev)
  {
  }

  // ----- runs of requests

  datatype Request = GetBlock(dev: nat, bnum: nat, search: Search) | Put(cb: LruBuf?,
      oneShot: bool) | Invalidate(dev: nat)

  /** What came of a request: a get found a buffer, took one, or found none to take; a put
      found its buffer with this count. */
  datatype Outcome = Hit(b: LruBuf) | Evicted(b: LruBuf) | AllInUse | Found(count: int) | Done

  datatype Entry = Entry(dev: int, bnum: nat, count: int)

  /** What the buffers hold, and those that nobody uses, in the order of their reuse. */
  datatype Cache = Cache(slots: map<LruBuf, Entry>, list: seq<LruBuf>)

  ghost predicate Holder(c: Cache, b: LruBuf, dev: nat, bnum: nat) {
    b in c.slots && c.slots[b].dev == dev && c.slots[b].bnum == bnum
  }

  /** What a search through all buffers would tell about a request. */
  ghost predicate Answers(c: Cache, r: Request, o: Outcome) {
    match r
    case GetBlock(dev, bnum, _) =>
      if exists b | b in c.slots :: Holder(c, b, dev, bnum) then o.Hit? && Holder(c, o.b, dev, bnum)
      else o == AllInUse || (o.Evicted? && o.b in c.slots)
    case Put(cb, _) =>
      if cb == null then o == Done else cb in c.slots && o == Found(c.slots[cb].count)
    case Invalidate(_) =>
      o == Done
  }

  function Next(c: Cache, r: Request, o: Outcome): (c': Cache)
    ensures c'.slots.Keys == c.slots.Keys
  {
    match r
    case GetBlock(dev, bnum, search) =>
      if o.Evicted? && o.b in c.slots then
        Cache(c.slots[o.b := Entry(if search == PREFETCH then NO_DEV else dev, bnum, c.slots[o.b].count + 1)],
              if c.list == [] then [] else c.list[1..])
      else c
    case Put(cb, oneShot) =>
      if cb == null || cb !in c.slots then c
      else
        var e := c.slots[cb];
        Cache(c.slots[cb := e.(count := e.count - 1)],
              if e.count > 1 then c.list else if oneShot then [cb] + c.list else c.list + [cb])
    case Invalidate(dev) =>
      c.(slots := map b | b in c.slots :: if c.slots[b].dev == dev then c.slots[b].(dev := NO_DEV) else c.slots[b])
  }

  /** The cache after a run. */
  function After(c: Cache, requests: seq<Request>, outcomes: seq<Outcome>): (c': Cache)
    requires |requests| == |outcomes|
    ensures c'.slots.Keys == c.slots.Keys
  {
    if requests == [] then c
    else
      var n := |requests| - 1;
      Next(After(c, requests[..n], outcomes[..n]), requests[n], outcomes[n])
  }

  /** Each request has its outcome. */
  ghost predicate Answered(c: Cache, requests: seq<Request>, outcomes: seq<Outcome>) {
    && |requests| == |outcomes|
    && forall k | 0 <= k < |requests| :: Answers(After(c, requests[..k], outcomes[..k]), requests[k], outcomes[k])
  }

  /** A buffer is taken from the front of the list, and none only if there is none. */
  ghost predicate FromFront(c: Cache, o: Outcome) {
    && (o.Evicted? ==> c.list != [] && o.b == c.list[0])
    && (o.AllInUse? ==> c.list == [])
  }

  ghost predicate Evicts(c: Cache, requests: seq<Request>, outcomes: seq<Outcome>) {
    && |requests| == |outcomes|
    && forall k | 0 <= k < |requests| :: FromFront(After(c, requests[..k], outcomes[..k]), outcomes[k])
  }

  /** A put found its buffer in use. */
  predicate InUse(o: Outcome) {
    o.Found? ==> o.count > 0
  }

  ghost predicate PutsInUse(outcomes: seq<Outcome>) {
    forall k | 0 <= k < |outcomes| :: InUse(outcomes[k])
  }

  /** The last outcome is that of a put of a buffer not in use, the first such put. */
  ghost predicate FirstMisuse(outcomes: seq<Outcome>) {
    outcomes != [] && PutsInUse(outcomes[..|outcomes| - 1]) && !InUse(outcomes[|outcomes| - 1])
  }

  lemma NoRequests(c: Cache)
    ensures After(c, [], []) == c && Answered(c, [], []) && Evicts(c, [], []) && PutsInUse([])
  {
  }

  /** What a request finds and does does not depend on the list. */
  lemma SameSlots(c: Cache, d: Cache, r: Request, o: Outcome)
    requires c.slots == d.slots
    ensures Answers(c, r, o) == Answers(d, r, o) && Next(c, r, o).slots == Next(d, r, o).slots
  {
    assert forall b | b in c.slots :: b in d.slots;
  }

  lemma OneMore(c: Cache, requests: seq<Request>, k: nat, outcomes: seq<Outcome>, o: Outcome)
    requires k < |requests| && Answered(c, requests[..k], outcomes)
    ensures
      var c1 := After(c, requests[..k], outcomes);
      && After(c, requests[..k + 1], outcomes + [o]) == Next(c1, requests[k], o)
      && (Answers(c1, requests[k], o) ==> Answered(c, requests[..k + 1], outcomes + [o]))
      && (Evicts(c, requests[..k], outcomes) && FromFront(c1, o) ==> Evicts(c, requests[..k + 1], outcomes + [o]))
      && (PutsInUse(outcomes + [o]) <==> PutsInUse(outcomes) && InUse(o))
  {
    hide Next, Answers, FromFront, InUse;
    var rs, os := requests[..k + 1], outcomes + [o];
    assert rs[..k] == requests[..k] && os[..k] == outcomes;
    forall j | 0 <= j < k
      ensures rs[..j] == requests[..k][..j] && os[..j] == outcomes[..j] && rs[j] == requests[..k][j]
                && os[j] == outcomes[j]
    {
    }
    assert os[k] == o;
  }

  // ----- what follows of every run

  /** The buffers that gets took, in order. */
  function Taken(outcomes: seq<Outcome>): seq<LruBuf> {
    if outcomes == [] then []
    else
      var n := |outcomes| - 1;
      Taken(outcomes[..n]) + if outcomes[n].Evicted? then [outcomes[n].b] else []
  }

  /** The buffers that came back by their last put, in order. */
  function CameBack(requests: seq<Request>, outcomes: seq<Outcome>): seq<LruBuf>
    requires |requests| == |outcomes|
  {
    if requests == [] then []
    else
      var n := |requests| - 1;
      var r, o := requests[n], outcomes[n];
      CameBack(requests[..n], outcomes[..n]) + if r.Put? && r.cb != null && o.Found? && o.count <= 1 then [r.cb] else []
  }

  lemma ListStep(c: Cache, r: Request, o: Outcome)
    requires Answers(c, r, o) && FromFront(c, o) && (r.Put? ==> !r.oneShot)
    ensures
      c.list + (if r.Put? && r.cb != null && o.Found? && o.count <= 1 then [r.cb] else []) ==
      (if o.Evicted? then [o.b] else []) + Next(c, r, o).list
  {
  }

  lemma Rejoin(s: seq<LruBuf>, a: seq<LruBuf>, b: seq<LruBuf>, t: seq<LruBuf>, u: seq<LruBuf>, s1: seq<LruBuf>,
        s2: seq<LruBuf>)
    requires s + a == t + s1 && s1 + b == u + s2
    ensures s + (a + b) == (t + u) + s2
  {
    assert s + (a + b) == (s + a) + b == t + (s1 + b);
  }

  /** Without one-shot puts, gets that miss take buffers in exactly the order in which they
      came back. */
  lemma {:induction false} EvictionFollowsReturns(c: Cache, requests: seq<Request>, outcomes: seq<Outcome>)
    requires Answered(c, requests, outcomes) && Evicts(c, requests, outcomes)
    requires forall r | r in requests :: r.Put? ==> !r.oneShot
    ensures c.list + CameBack(requests, outcomes) == Taken(outcomes) + After(c, requests, outcomes).list
  {
    hide Answers, FromFront, Next;
    if requests != [] {
      var n := |requests| - 1;
      var rs, os, r, o := requests[..n], outcomes[..n], requests[n], outcomes[n];
      RunFront(c, requests, outcomes);
      EvictionFollowsReturns(c, rs, os);
      var c1 := After(c, rs, os);
      assert r in requests && FromFront(c1, o);
      ListStep(c1, r, o);
      var back := if r.Put? && r.cb != null && o.Found? && o.count <= 1 then [r.cb] else [];
      var taken := if o.Evicted? then [o.b] else [];
      Rejoin(c.list, CameBack(rs, os), back, Taken(os), taken, c1.list, Next(c1, r, o).list);
    }
  }

  lemma RunFront(c: Cache, requests: seq<Request>, outcomes: seq<Outcome>)
    requires Answered(c, requests, outcomes) && requests != []
    ensures
      var n := |requests| - 1;
      && Answered(c, requests[..n], outcomes[..n])
      && (Evicts(c, requests, outcomes) ==> Evicts(c, requests[..n], outcomes[..n]))
      && Answers(After(c, requests[..n], outcomes[..n]), requests[n], outcomes[n])
  {
    hide Answers, FromFront;
    var n := |requests| - 1;
    var rs, os := requests[..n], outcomes[..n];
    forall j | 0 <= j < n
      ensures rs[..j] == requests[..j] && os[..j] == outcomes[..j] && rs[j] == requests[j] && os[j] == outcomes[j]
    {
    }
  }

  /** How often a get that missed was answered with `b`. */
  function Handed(outcomes: seq<Outcome>, b: LruBuf): nat {
    multiset(outcomes)[Evicted(b)]
  }

  /** How often `b` was put back. */
  function GivenBack(requests: seq<Request>, b: LruBuf): nat {
    multiset(requests)[Put(b, true)] + multiset(requests)[Put(b, false)]
  }

  lemma CountStep(c: Cache, r: Request, o: Outcome, b: LruBuf)
    requires Answers(c, r, o) && b in c.slots
    ensures
      Next(c, r, o).slots[b].count ==
      c.slots[b].count + (if o == Evicted(b) then 1 else 0) - if r == Put(b, true) || r == Put(b, false) then 1 else 0
  {
  }

  lemma HandedStep(requests: seq<Request>, outcomes: seq<Outcome>, n: nat, b: LruBuf)
    requires |requests| == |outcomes| == n + 1
    ensures Handed(outcomes, b) == Handed(outcomes[..n], b) + if outcomes[n] == Evicted(b) then 1 else 0
    ensures
      GivenBack(requests, b) ==
      GivenBack(requests[..n], b) + if requests[n] == Put(b, true) || requests[n] == Put(b, false) then 1 else 0
  {
    assert requests == requests[..n] + [requests[n]] && outcomes == outcomes[..n] + [outcomes[n]];
  }

  /** The count of a buffer is the gets that took it less its puts. */
  lemma {:induction false} CountIsUse(c: Cache, requests: seq<Request>, outcomes: seq<Outcome>, b: LruBuf)
    requires Answered(c, requests, outcomes) && b in c.slots
    ensures After(c, requests, outcomes).slots[b].count ==
              c.slots[b].count + Handed(outcomes, b) - GivenBack(requests, b)
  {
    hide Answers, Next;
    if requests != [] {
      hide Handed, GivenBack, Answered;
      var n := |requests| - 1;
      RunFront(c, requests, outcomes);
      CountIsUse(c, requests[..n], outcomes[..n], b);
      CountStep(After(c, requests[..n], outcomes[..n]), requests[n], outcomes[n], b);
      HandedStep(requests, outcomes, n, b);
    }
  }

  /** Every put gives back a buffer that a get has taken, and that has not been given back
      since. */
  ghost predicate Matched(requests: seq<Request>, outcomes: seq<Outcome>)
    requires |requests| == |outcomes|
  {
    forall k | 0 <= k < |requests| && requests[k].Put? && requests[k].cb != null ::
      GivenBack(requests[..k], requests[k].cb) < Handed(outcomes[..k], requests[k].cb)
  }

  /** If no buffer is in use at first, the puts find their buffers in use exactly if each is
      matched by a get. */
  lemma MatchedIffInUse(c: Cache, requests: seq<Request>, outcomes: seq<Outcome>)
    requires Answered(c, requests, outcomes) && forall b | b in c.slots :: c.slots[b].count == 0
    ensures Matched(requests, outcomes) <==> PutsInUse(outcomes)
  {
    hide Handed, GivenBack, After;
    forall k | 0 <= k < |requests|
      ensures requests[k].Put? && requests[k].cb != null ==>
                (InUse(outcomes[k]) <==> GivenBack(requests[..k], requests[k].cb) < Handed(outcomes[..k],
                    requests[k].cb))
      ensures !(requests[k].Put? && requests[k].cb != null) ==> InUse(outcomes[k])
    {
      var c1 := After(c, requests[..k], outcomes[..k]);
      assert Answers(c1, requests[k], outcomes[k]);
      if requests[k].Put? && requests[k].cb != null {
        PrefixAnswered(c, requests, outcomes, k);
        CountIsUse(c, requests[..k], outcomes[..k], requests[k].cb);
      }
    }
  }

  lemma PrefixAnswered(c: Cache, requests: seq<Request>, outcomes: seq<Outcome>, k: nat)
    requires Answered(c, requests, outcomes) && k <= |requests|
    ensures Answered(c, requests[..k], outcomes[..k])
  {
    hide Answers;
    var rs, os := requests[..k], outcomes[..k];
    forall j | 0 <= j < k
      ensures rs[..j] == requests[..j] && os[..j] == outcomes[..j] && rs[j] == requests[j] && os[j] == outcomes[j]
    {
    }
  }

  class LRUCache {
    const buf: seq<LruBuf>
    const bufHash: array<LruBuf?>
    const hashMask: nat
    var front: LruBuf?
    var rear: LruBuf?
    ghost var chains: seq<seq<LruBuf>>
    ghost var lru: seq<LruBuf>
    ghost var inOrder: bool  // the list has been sound after every request served so far

    // ----- invariants

    /** The cache as clients see it. */
    ghost function State(): Cache
      reads this`lru, buf`devno, buf`blockno, buf`count
    {
      Cache(map b | b in buf :: Entry(b.devno, b.blockno, b.count), lru)
    }

    ghost function HashLinks(): Links
      reads buf`bHash
    {
      map b | b in buf :: b.bHash
    }

    ghost function Numbers(): map<LruBuf, nat>
      reads buf`blockno
    {
      map b | b in buf :: b.blockno
    }

    ghost predicate Partition(out: LruBuf?)
      reads this`chains, buf`blockno
    {
      bufHash.Length == hashMask + 1 && Partitioned(chains, Numbers(), hashMask, out)
    }

    ghost predicate Chained()
      reads this`chains, bufHash, buf`bHash
    {
      ChainsOf(bufHash[..], chains, HashLinks())
    }

    /** No two buffers hold the same block of a real device. */
    ghost predicate OneHolder()
      reads buf`blockno, buf`devno
    {
      forall a, b | a in buf && b in buf && a != b && a.devno != NO_DEV :: !Holds(b, a.devno, a.blockno)
    }

    /** The list pointers lead to buffers of the table. */
    ghost predicate Closed()
      reads this`front, this`rear, buf`next, buf`prev
    {
      ClosedIn(buf, front, rear, Nexts(), Prevs())
    }

    ghost predicate HashValid(out: LruBuf?)
      reads this`chains, this`front, this`rear, bufHash, buf
    {
      && |buf| >= 2
      && NoDup(buf)
      && Partition(out)
      && Chained()
      && OneHolder()
      && Closed()
    }

    ghost function Nexts(): Links
      reads buf`next
    {
      map b | b in buf :: b.next
    }

    ghost function Prevs(): Links
      reads buf`prev
    {
      map b | b in buf :: b.prev
    }

    ghost predicate Listed(s: seq<LruBuf>)
      reads this`front, this`rear, buf`next, buf`prev
    {
      ListOf(front, rear, s, Nexts(), Prevs())
    }

    /** The list holds exactly the buffers nobody uses, except `out`. */
    ghost predicate UnheldIn(s: seq<LruBuf>, out: LruBuf?)
      reads buf`count
    {
      && NoDup(s)
      && (forall b | b in s :: b in buf && b != out)
      && (forall b | b in buf :: b.count >= 0 && (b in s <==> b.count == 0 && b != out))
    }

    ghost predicate Unheld(out: LruBuf?)
      reads this`lru, buf`count
    {
      UnheldIn(lru, out)
    }

    ghost predicate LruValid()
      reads this`front, this`rear, this`lru, buf`next, buf`prev, buf`count
    {
      Listed(lru) && Unheld(null)
    }

    // ----- hash chains

    /** The buffers of one chain, and how they are linked. */
    lemma ChainLinks(h: nat)
      requires HashValid(null) && h <= hashMask
      ensures |chains| == bufHash.Length == hashMask + 1 && bufHash[h] == At(chains[h], 0)
      ensures forall i | 0 <= i < |chains[h]| :: chains[h][i] in buf && chains[h][i].bHash == At(chains[h], i + 1)
      ensures forall b | b in buf && BitAnd(b.blockno, hashMask) == h :: b in chains[h]
    {
      assert ChainOf(bufHash[..][h], chains[h], HashLinks());
      forall i | 0 <= i < |chains[h]|
        ensures chains[h][i] in buf && chains[h][i].bHash == At(chains[h], i + 1)
      {
        assert chains[h][i] in HashLinks() && HashLinks()[chains[h][i]] == At(chains[h], i + 1);
      }
      forall b | b in buf && BitAnd(b.blockno, hashMask) == h
        ensures b in chains[h]
      {
        assert Numbers()[b] == b.blockno;
      }
    }

    /** The search for a block in its chain finds it exactly if some buffer holds it. */
    method Find(dev: int, bnum: nat) returns (bp: LruBuf?)
      requires HashValid(null)
      ensures bp != null ==> bp in buf && Holds(bp, dev, bnum) && dev != NO_DEV
      ensures bp == null ==> dev == NO_DEV || forall b | b in buf :: !Holds(b, dev, bnum)
    {
      hide HashValid, BitAnd;
      bp := null;
      if dev != NO_DEV {
        var b := BitAnd(bnum, hashMask);
        ChainLinks(b);
        ghost var j := 0;
        bp := bufHash[b];
        while bp != null
          invariant 0 <= j <= |chains[b]| && bp == At(chains[b], j)
          invariant forall x | x in chains[b][..j] :: !Holds(x, dev, bnum)
          decreases |chains[b]| - j
        {
          if bp.blockno == bnum && bp.devno == dev {
            break;
          }
          bp := bp.bHash;
          j := j + 1;
        }
      }
    }

    /** Where a buffer stands in its chain. */
    lemma InChain(bp: LruBuf) returns (j: nat)
      requires HashValid(null) && bp in buf
      ensures |chains| == bufHash.Length == hashMask + 1 && BitAnd(bp.blockno, hashMask) < |chains|
      ensures
        var h := BitAnd(bp.blockno, hashMask);
        && j < |chains[h]| && chains[h][j] == bp && bufHash[h] == At(chains[h], 0)
        && (forall i | 0 <= i < |chains[h]| :: chains[h][i] in buf && chains[h][i].bHash == At(chains[h], i + 1))
        && NoDup(chains[h])
    {
      var h := BitAnd(bp.blockno, hashMask);
      ChainLinks(h);
      j :| 0 <= j < |chains[h]| && chains[h][j] == bp;
    }

    /** Removes a buffer, element `j` of chain `b`, from its hash chain. */
    method Unlink(bp: LruBuf, b: nat, ghost chain: seq<LruBuf>, ghost j: nat)
      requires b < bufHash.Length && bufHash[b] == At(chain, 0) && NoDup(chain)
      requires forall i | 0 <= i < |chain| :: chain[i] in buf && chain[i].bHash == At(chain, i + 1)
      requires j < |chain| && chain[j] == bp
      modifies bufHash, buf`bHash
      ensures bufHash[..] == if j == 0 then old(bufHash[..])[b := At(chain, 1)] else old(bufHash[..])
      ensures HashLinks() == if j == 0 then old(HashLinks()) else old(HashLinks())[chain[j - 1] := At(chain, j + 1)]
    {
      var prevPtr := bufHash[b];
      if prevPtr == bp {
        bufHash[b] := bp.bHash;
      } else {
        ghost var i := 0;
        while prevPtr.bHash != null
          invariant 0 <= i < j && prevPtr == chain[i]
          invariant unchanged(bufHash, buf)
          decreases |chain| - i
        {
          if prevPtr.bHash == bp {
            prevPtr.bHash := bp.bHash;
            break;
          } else {
            prevPtr := prevPtr.bHash;
          }
          i := i + 1;
        }
      }
    }

    /** What the chains will be without a buffer. */
    lemma CutOut(bp: LruBuf, b: nat, j: nat)
      requires HashValid(null) && bp in buf && b == BitAnd(bp.blockno, hashMask)
      requires b < |chains| && j < |chains[b]| && chains[b][j] == bp
      ensures forall x | x in chains[b] :: x in HashLinks()
      ensures
        var chain := chains[b];
        && Partitioned(chains[b := Without(chain, j)], Numbers(), hashMask, bp)
        && ChainsOf(if j == 0 then bufHash[..][b := At(chain, 1)] else bufHash[..],
                    chains[b := Without(chain, j)],
                    if j == 0 then HashLinks() else HashLinks()[chain[j - 1] := At(chain, j + 1)])
    {
      CutPartition(chains, Numbers(), hashMask, b, j);
      CutChain(bufHash[..], chains, HashLinks(), Numbers(), hashMask, b, j);
    }

    /** Takes a buffer out of the hash chains. */
    method Unchain(bp: LruBuf)
      requires HashValid(null) && bp in buf
      modifies this`chains, bufHash, buf`bHash
      ensures HashValid(bp)
    {
      hide Closed, OneHolder, Partitioned, ChainsOf, BitAnd, Without, HashLinks, NoDup, Numbers, At;
      var b := BitAnd(bp.blockno, hashMask);
      ghost var j := InChain(bp);
      CutOut(bp, b, j);
      ghost var chain := chains[b];
      Unlink(bp, b, chain, j);
      chains := chains[b := Without(chain, j)];
    }

    // ----- the list

    /** Changes one pointer. */
    method SetNext(b: LruBuf, to: LruBuf?)
      requires b in buf
      modifies b`next
      ensures b.next == to && Nexts() == old(Nexts())[b := to]
    {
      b.next := to;
    }

    method SetPrev(b: LruBuf, to: LruBuf?)
      requires b in buf
      modifies b`prev
      ensures b.prev == to && Prevs() == old(Prevs())[b := to]
    {
      b.prev := to;
    }

    /** Removes a buffer from the list. */
    method RmLru(bp: LruBuf)
      requires Closed() && bp in buf
      modifies this`front, this`rear, buf`next, buf`prev
      ensures Closed()
      ensures
        var p, n := old(bp.prev), old(bp.next);
        && front == (if p != null then old(front) else n)
        && rear == (if n != null then old(rear) else p)
        && Nexts() == (if p != null then old(Nexts())[p := n] else old(Nexts()))
        && Prevs() == (if n != null then old(Prevs())[n := p] else old(Prevs()))
    {
      hide ClosedIn, Nexts, Prevs;
      ClosedAt(bp);
      UnlinkedClosed(buf, front, rear, Nexts(), Prevs(), bp);
      var nextp := bp.next;
      var prevp := bp.prev;
      if prevp != null {
        SetNext(prevp, nextp);
      } else {
        front := nextp;
      }
      if nextp != null {
        SetPrev(nextp, prevp);
      } else {
        rear := prevp;
      }
    }

    lemma ClosedAt(bp: LruBuf)
      requires Closed() && bp in buf
      ensures bp.next != null ==> bp.next in buf
      ensures bp.prev != null ==> bp.prev in buf
      ensures bp in Nexts() && Nexts()[bp] == bp.next && bp in Prevs() && Prevs()[bp] == bp.prev
    {
    }

    lemma FrontListed()
      requires LruValid() && front != null
      ensures lru != [] && front == lru[0] && front in buf
      ensures
        var n := front.next;
        && front.prev == null
        && ListOf(n, if n != null then rear else null, lru[1..], Nexts(), if n != null then Prevs()[n := null]
            else Prevs())
    {
      RemoveListed(front, rear, lru, Nexts(), Prevs());
      assert lru[0] in Nexts();
    }

    lemma FrontUnheld()
      requires Unheld(null) && lru != []
      ensures UnheldIn(lru[1..], lru[0])
    {
      forall b | b in lru && b != lru[0]
        ensures b in lru[1..]
      {
        var i :| 0 <= i < |lru| && lru[i] == b;
        assert b == lru[1..][i - 1];
      }
    }

    lemma FrontClosed()
      requires Closed()
      ensures front != null ==> front in buf
      ensures rear != null ==> rear in buf
    {
    }

    /** Takes the buffer at the front of the list out of list and chains. */
    method EvictBlock() returns (bp: LruBuf?)
      requires HashValid(null)
      modifies this`front, this`rear, this`lru, this`chains, bufHash, buf`next, buf`prev, buf`bHash
      ensures bp == old(front)
      ensures bp == null ==> unchanged(this, bufHash, buf)
      ensures bp != null ==> bp in buf && HashValid(bp)
      ensures bp != null && old(LruValid()) ==>
                old(lru) != [] && bp == old(lru)[0] && lru == old(lru)[1..] && Listed(lru) && Unheld(bp)
    {
      hide Partition, Chained, OneHolder, ListOf, NoDup, Closed, Nexts, Prevs;
      bp := front;
      if bp == null {
        return;
      }
      FrontClosed();
      if LruValid() {
        FrontListed();
        FrontUnheld();
      }
      RmLru(bp);
      Unchain(bp);
      if old(LruValid()) {
        lru := lru[1..];
      }
    }

    // ----- requests

    lemma Pushed(bp: LruBuf)
      requires HashValid(bp) && bp in buf
      ensures
        var h := BitAnd(bp.blockno, hashMask);
        && h < |chains| == bufHash.Length
        && Partitioned(chains[h := [bp] + chains[h]], Numbers(), hashMask, null)
        && ChainsOf(bufHash[..][h := bp], chains[h := [bp] + chains[h]], HashLinks()[bp := bufHash[h]])
    {
      PushPartition(chains, Numbers(), hashMask, bp);
      PushChain(bufHash[..], chains, HashLinks(), Numbers(), hashMask, bp, BitAnd(bp.blockno, hashMask));
    }

    /** Puts a buffer at the head of its hash chain. */
    method Enchain(bp: LruBuf)
      requires HashValid(bp) && bp in buf
      modifies this`chains, bufHash, bp`bHash
      ensures HashValid(null)
    {
      hide Partitioned, ChainsOf, OneHolder, BitAnd, NoDup, Closed;
      Pushed(bp);
      var b := BitAnd(bp.blockno, hashMask);
      ghost var heads, link := bufHash[..], HashLinks();
      bp.bHash := bufHash[b];
      bufHash[b] := bp;
      chains := chains[b := [bp] + chains[b]];
      assert bufHash[..] == heads[b := bp] && HashLinks() == link[bp := heads[b]];
    }

    /** A buffer outside the chains can take any number. */
    lemma Renumbered(number: map<LruBuf, nat>, bp: LruBuf, n: nat)
      requires Partitioned(chains, number, hashMask, bp)
      ensures Partitioned(chains, number[bp := n], hashMask, bp)
    {
    }

    /** Gives an evicted buffer its new block. */
    method LoadBlock(bp: LruBuf, dev: int, bnum: nat, search: Search)
      requires HashValid(bp) && bp in buf && 0 <= dev
      requires forall b | b in buf && b != bp :: !Holds(b, dev, bnum)
      modifies this`chains, bufHash, bp`blockno, bp`devno, bp`count, bp`bHash
      ensures HashValid(null)
      ensures Holds(bp, if search == PREFETCH then NO_DEV else dev, bnum) && bp.count == old(bp.count) + 1
      ensures old(Listed(lru)) ==> Listed(lru)
      ensures old(Unheld(bp)) ==> Unheld(null)
    {
      hide Partitioned, ChainsOf, Listed, BitAnd, NoDup, Closed;
      Renumbered(Numbers(), bp, bnum);
      ghost var number := Numbers();
      bp.devno := dev;
      bp.blockno := bnum;
      bp.count := bp.count + 1;
      assert Numbers() == number[bp := bnum];
      Enchain(bp);
      if dev != NO_DEV {
        if search == PREFETCH {
          bp.devno := NO_DEV;
        }
      }
    }

    /** A request for a block, with its load completed before the next request. A nil answer
        means that all buffers are in use. */
    method Get(dev: int, bnum: nat, search: Search) returns (bp: LruBuf?, hit: bool)
      requires HashValid(null) && 0 <= dev
      modifies this`front, this`rear, this`lru, this`chains, bufHash, buf
      ensures HashValid(null)
      ensures forall b | b in buf && b != bp :: b.blockno == old(b.blockno) && b.devno == old(b.devno)
                && b.count == old(b.count)
      ensures hit <==> exists b :: b in buf && old(Holds(b, dev, bnum))
      ensures hit ==> bp != null && bp in buf && old(Holds(bp, dev, bnum)) && unchanged(this, bufHash, buf)
      ensures !hit ==>
                && bp == old(front)
                && (bp == null ==> unchanged(this, bufHash, buf))
                && (bp != null ==>
                      && bp in buf && Holds(bp, if search == PREFETCH then NO_DEV else dev, bnum)
                      && bp.count == old(bp.count) + 1)
                && (old(LruValid()) ==>
                      && LruValid()
                      && (bp == null <==> old(lru) == [])
                      && (bp != null ==> bp == old(lru)[0] && lru == old(lru)[1..]))
    {
      hide Partition, Chained, OneHolder, ListOf, NoDup, Closed, Nexts, Prevs, UnheldIn;
      bp := Find(dev, bnum);
      hit := false;
      if bp != null && bp.blockno == bnum && bp.devno == dev {
        hit := true;
        return;
      }
      FrontOfList();
      bp := EvictBlock();
      if bp != null {
        LoadBlock(bp, dev, bnum, search);
      }
    }

    lemma FrontOfList()
      ensures LruValid() ==> (front == null <==> lru == [])
    {
    }

    /** Puts a buffer at an end of the list. */
    method Relist(bp: LruBuf, oneShot: bool)
      requires Closed() && bp in buf
      modifies this`front, this`rear, buf`next, buf`prev
      ensures Relisted(old(front), old(rear), old(Nexts()), old(Prevs()), bp, oneShot, front, rear, Nexts(), Prevs())
    {
      hide ClosedIn, Nexts, Prevs;
      if oneShot {
        PutFront(bp);
      } else {
        PutRear(bp);
      }
    }

    method PutFront(bp: LruBuf)
      requires Closed() && bp in buf
      modifies this`front, this`rear, buf`next, buf`prev
      ensures Relisted(old(front), old(rear), old(Nexts()), old(Prevs()), bp, true, front, rear, Nexts(), Prevs())
    {
      hide ClosedIn, Nexts, Prevs;
      FrontClosed();
      SetPrev(bp, null);
      SetNext(bp, front);
      if front == null {
        rear := bp;
      } else {
        SetPrev(front, bp);
      }
      front := bp;
    }

    method PutRear(bp: LruBuf)
      requires Closed() && bp in buf
      modifies this`front, this`rear, buf`next, buf`prev
      ensures Relisted(old(front), old(rear), old(Nexts()), old(Prevs()), bp, false, front, rear, Nexts(), Prevs())
    {
      hide ClosedIn, Nexts, Prevs;
      FrontClosed();
      SetPrev(bp, rear);
      SetNext(bp, null);
      if rear == null {
        front := bp;
      } else {
        SetNext(rear, bp);
      }
      rear := bp;
    }

    /** Returns a buffer. The list stays in order exactly if the buffer was in use. */
    method PutBlock(cb: LruBuf?, oneShot: bool)
      requires HashValid(null) && (cb != null ==> cb in buf)
      modifies this`front, this`rear, this`lru, buf`next, buf`prev, buf`count
      ensures HashValid(null)
      ensures cb == null ==> unchanged(this, buf)
      ensures cb != null ==> cb.count == old(cb.count) - 1
      ensures forall b | b in buf && b != cb :: b.count == old(b.count)
      ensures cb != null && old(LruValid()) && old(cb.count) > 0 ==>
                && LruValid()
                && lru == if cb.count > 0 then old(lru) else if oneShot then [cb] + old(lru) else old(lru) + [cb]
      ensures cb != null && old(LruValid()) && old(cb.count) == 0 ==> forall s :: !Listed(s)
    {
      hide NoDup, Partition, Chained, OneHolder, Closed, Listed;
      if cb == null {
        return;
      }
      cb.count := cb.count - 1;
      if cb.count > 0 {
        return;
      }
      Requeue(cb, oneShot);
    }

    /** Puts a buffer at an end of the list, as a value. */
    method Requeue(bp: LruBuf, oneShot: bool)
      requires Closed() && bp in buf
      modifies this`front, this`rear, this`lru, buf`next, buf`prev
      ensures Closed()
      ensures old(Listed(lru)) && NoDup(old(lru)) && bp !in old(lru) ==>
                Listed(lru) && NoDup(lru) && lru == if oneShot then [bp] + old(lru) else old(lru) + [bp]
      ensures old(Listed(lru)) && NoDup(old(lru)) && bp in old(lru) ==> forall s :: !Listed(s)
    {
      hide ListOf, NoDup, Relisted, ClosedIn, Nexts, Prevs;
      ghost var f, r, n, p := front, rear, Nexts(), Prevs();
      Relist(bp, oneShot);
      RelistedClosed(buf, f, r, n, p, bp, oneShot, front, rear, Nexts(), Prevs());
      if ListOf(f, r, lru, n, p) && NoDup(lru) {
        if bp !in lru {
          RelistedOnce(f, r, lru, n, p, bp, oneShot, front, rear, Nexts(), Prevs());
          lru := if oneShot then [bp] + lru else lru + [bp];
        } else {
          forall t
            ensures !Listed(t)
          {
            RelistedTwice(f, r, lru, n, p, bp, oneShot, front, rear, Nexts(), Prevs(), t);
          }
        }
      }
    }

    /** Forgets the blocks of a device. */
    method InvalidateDevice(dev: int)
      requires HashValid(null) && |buf| == NR_BUFS
      modifies buf`devno
      ensures HashValid(null)
      ensures forall b | b in buf :: b.devno == if old(b.devno) == dev then NO_DEV else old(b.devno)
    {
      hide Partition, Chained, Closed;
      for i := 0 to NR_BUFS
        invariant forall j | 0 <= j < i :: buf[j].devno == if old(buf[j].devno) == dev then NO_DEV
                  else old(buf[j].devno)
        invariant forall j | i <= j < NR_BUFS :: buf[j].devno == old(buf[j].devno)
      {
        if buf[i].devno == dev {
          buf[i].devno := NO_DEV;
        }
      }
    }

    /** A table of buffers as they are allocated. */
    ghost predicate Blank()
      reads this, bufHash, buf
    {
      && |buf| >= 2 && NoDup(buf) && lru == buf
      && bufHash.Length == hashMask + 1 == |chains|
      && (forall h | 0 <= h < |chains| :: chains[h] == if h == 0 then buf else [])
      && (forall h | 0 <= h < bufHash.Length :: bufHash[h] == null)
      && (forall b | b in buf :: b.devno == NO_DEV && b.count == 0 && b.blockno == 0)
      && (forall b | b in buf :: b.next == null && b.prev == null && b.bHash == null)
    }

    /** Strings all buffers on the list. */
    method LinkList()
      requires |buf| >= 2 && NoDup(buf)
      requires forall j | 0 <= j < |buf| :: buf[j].next == null && buf[j].prev == null
      modifies this`front, this`rear, buf`next, buf`prev
      ensures front == buf[0] && rear == buf[|buf| - 1]
      ensures forall j | 0 <= j < |buf| :: buf[j].next == At(buf, j + 1) && buf[j].prev == At(buf, j - 1)
    {
      LinkInner();
      var numslots := |buf|;
      assert forall j | 0 < j < numslots :: buf[j] != buf[0];
      assert forall j | 0 <= j < numslots - 1 :: buf[j] != buf[numslots - 1];
      hide NoDup;
      front := buf[0];
      front.next := buf[1];
      rear := buf[numslots - 1];
      rear.prev := buf[numslots - 2];
    }

    method LinkInner()
      requires |buf| >= 2 && NoDup(buf)
      requires forall j | 0 <= j < |buf| :: buf[j].next == null && buf[j].prev == null
      modifies buf`next, buf`prev
      ensures forall j | 0 <= j < |buf| :: buf[j].prev == if 1 <= j < |buf| - 1 then At(buf, j - 1) else null
      ensures forall j | 0 <= j < |buf| :: buf[j].next == if 1 <= j < |buf| - 1 then At(buf, j + 1) else null
    {
      hide At;
      var numslots := |buf|;
      for i := 1 to numslots - 1
        invariant forall j | 0 <= j < numslots :: buf[j].prev == if 1 <= j < i then At(buf, j - 1) else null
        invariant forall j | 0 <= j < numslots :: buf[j].next == if 1 <= j < i then At(buf, j + 1) else null
      {
        AtIs(buf, i - 1);
        AtIs(buf, i + 1);
        buf[i].prev := buf[i - 1];
        buf[i].next := buf[i + 1];
      }
    }

    /** Strings all buffers on the first hash chain. */
    method LinkChain()
      requires |buf| >= 2 && NoDup(buf) && bufHash.Length > 0 && front == buf[0]
      requires forall j | 0 <= j < |buf| :: buf[j].next == At(buf, j + 1) && buf[j].bHash == null
      modifies bufHash, buf`bHash
      ensures bufHash[..] == old(bufHash[..])[0 := buf[0]]
      ensures forall j | 0 <= j < |buf| :: buf[j].bHash == At(buf, j + 1)
    {
      hide At;
      var numslots := |buf|;
      for i := 0 to numslots - 1
        invariant unchanged(bufHash)
        invariant forall j | 0 <= j < numslots :: buf[j].bHash == if j < i then At(buf, j + 1) else null
      {
        buf[i].bHash := buf[i].next;
      }
      AtIs(buf, numslots);
      bufHash[0] := front;
    }

    lemma AllLinked()
      requires |buf| >= 2 && NoDup(buf) && lru == buf
      requires bufHash.Length == hashMask + 1 == |chains|
      requires forall h | 0 <= h < |chains| :: chains[h] == if h == 0 then buf else []
      requires forall h | 0 <= h < bufHash.Length :: bufHash[h] == if h == 0 then buf[0] else null
      requires forall b | b in buf :: b.devno == NO_DEV && b.count == 0 && b.blockno == 0
      requires front == buf[0] && rear == buf[|buf| - 1]
      requires forall j | 0 <= j < |buf| :: buf[j].next == At(buf, j + 1) && buf[j].prev == At(buf, j - 1)
                && buf[j].bHash == At(buf, j + 1)
      ensures HashValid(null) && LruValid()
    {
      hide NoDup, ListOf, ChainsOf, Partitioned, At, Closed;
      FirstPartition(buf, chains, Numbers(), hashMask);
      FirstChain(buf, bufHash[..], chains, HashLinks());
      FirstList(buf, Nexts(), Prevs());
      FirstClosed();
    }

    lemma FirstClosed()
      requires |buf| >= 2 && front == buf[0] && rear == buf[|buf| - 1]
      requires forall j | 0 <= j < |buf| :: buf[j].next == At(buf, j + 1) && buf[j].prev == At(buf, j - 1)
      ensures Closed()
    {
      hide At;
      forall b | b in buf
        ensures (b.next == null || b.next in buf) && (b.prev == null || b.prev in buf)
      {
        var j :| 0 <= j < |buf| && buf[j] == b;
        AtIn(buf, j + 1);
        AtIn(buf, j - 1);
      }
    }

    /** Strings the buffers together. */
    method LinkAll()
      requires Blank()
      modifies this, bufHash, set b | b in buf
      ensures HashValid(null) && LruValid() && lru == buf && inOrder
      ensures forall b | b in buf :: b.devno == NO_DEV && b.count == 0
    {
      hide NoDup, At;
      LinkList();
      LinkChain();
      assert bufHash[..][0] == buf[0];
      inOrder := true;
      AllLinked();
    }

    constructor (numslots: nat, numhash: nat)
      requires numslots >= 2 && numhash >= 1
      ensures HashValid(null) && LruValid() && lru == buf && inOrder
      ensures |buf| == numslots && hashMask == numhash - 1
      ensures fresh(bufHash) && forall b | b in buf :: fresh(b) && b.devno == NO_DEV && b.count == 0
    {
      var bufs: seq<LruBuf> := [];
      for i := 0 to numslots
        invariant |bufs| == i && NoDup(bufs)
        invariant forall b | b in bufs :: fresh(b) && b.devno == NO_DEV && b.count == 0 && b.blockno == 0
        invariant forall b | b in bufs :: b.next == null && b.prev == null && b.bHash == null
      {
        var b := new LruBuf();
        bufs := bufs + [b];
      }
      buf := bufs;
      bufHash := new LruBuf?[numhash](_ => null);
      hashMask := numhash - 1;
      front, rear := null, null;
      chains := seq(numhash, h => if h == 0 then bufs else []);
      lru := bufs;
      new;
      hide NoDup;
      assert forall b | b in buf :: fresh(b);
      LinkAll();
    }

    // ----- whole runs

    /** Serves one request. The list stays sound exactly if a buffer put back is in use. */
    method Serve(r: Request) returns (o: Outcome)
      requires HashValid(null) && (r.Invalidate? ==> |buf| == NR_BUFS)
      requires r.Put? && r.cb != null ==> r.cb in buf
      modifies this`front, this`rear, this`lru, this`chains, this`inOrder, bufHash, buf
      ensures HashValid(null)
      ensures Answers(old(State()), r, o) && State().slots == Next(old(State()), r, o).slots
      ensures inOrder == (old(inOrder) && LruValid())
      ensures old(LruValid()) ==> FromFront(old(State()), o)
      ensures old(LruValid()) ==> if InUse(o) then LruValid() else !LruValid() && forall s :: !Listed(s)
      ensures old(LruValid()) && LruValid() ==> lru == Next(old(State()), r, o).list
    {
      hide HashValid, LruValid, Answers, Next, Listed;
      match r {
        case GetBlock(dev, bnum, search) =>
          o := ServeGet(dev, bnum, search);
        case Put(cb, oneShot) =>
          o := ServePut(cb, oneShot);
        case Invalidate(dev) =>
          ServeInvalidate(dev);
          o := Done;
      }
      inOrder := inOrder && LruValid();
    }

    lemma HoldersAre(dev: nat, bnum: nat)
      ensures forall b: LruBuf | b in buf :: Holder(State(), b, dev, bnum) <==> Holds(b, dev, bnum)
    {
    }

    method ServeGet(dev: nat, bnum: nat, search: Search) returns (o: Outcome)
      requires HashValid(null)
      modifies this`front, this`rear, this`lru, this`chains, bufHash, buf
      ensures HashValid(null) && !o.Found?
      ensures
        var r := GetBlock(dev, bnum, search);
        && Answers(old(State()), r, o) && State().slots == Next(old(State()), r, o).slots
        && (old(LruValid()) ==> LruValid() && FromFront(old(State()), o) && lru == Next(old(State()), r, o).list)
    {
      hide HashValid, LruValid, Holder;
      ghost var c := State();
      HoldersAre(dev, bnum);
      var bp, hit := Get(dev, bnum, search);
      o := if bp == null then AllInUse else if hit then Hit(bp) else Evicted(bp);
    }

    method ServePut(cb: LruBuf?, oneShot: bool) returns (o: Outcome)
      requires HashValid(null) && (cb != null ==> cb in buf)
      modifies this`front, this`rear, this`lru, buf`next, buf`prev, buf`count
      ensures HashValid(null) && !o.Evicted? && !o.AllInUse?
      ensures
        var r := Put(cb, oneShot);
        && Answers(old(State()), r, o) && State().slots == Next(old(State()), r, o).slots
        && (old(LruValid()) ==> if InUse(o) then LruValid() else !LruValid() && forall s :: !Listed(s))
        && (old(LruValid()) && LruValid() ==> lru == Next(old(State()), r, o).list)
    {
      hide HashValid, Listed;
      if cb == null {
        o := Done;
      } else {
        o := Found(cb.count);
      }
      PutBlock(cb, oneShot);
    }

    method ServeInvalidate(dev: nat)
      requires HashValid(null) && |buf| == NR_BUFS
      modifies buf`devno
      ensures HashValid(null)
      ensures Answers(old(State()), Invalidate(dev), Done) && State() == Next(old(State()), Invalidate(dev), Done)
      ensures LruValid() == old(LruValid())
    {
      hide HashValid, LruValid;
      InvalidateDevice(dev);
    }

    lemma StateIs()
      ensures State().list == lru
      ensures (forall b | b in buf :: b.count == 0) ==> forall b | b in State().slots :: State().slots[b].count == 0
    {
    }

    /** Any run of requests keeps the hash index right, and each request has its outcome. The
        list is sound all along exactly if every put finds its buffer in use; then gets that
        miss take the buffers from its front. In a new cache, that is if every put is matched
        by a get that took the buffer. */
    method Replay(requests: seq<Request>) returns (outcomes: seq<Outcome>)
      requires HashValid(null)
      requires forall r | r in requests ::
                (r.Put? && r.cb != null ==> r.cb in buf) && (r.Invalidate? ==> |buf| == NR_BUFS)
      modifies this`front, this`rear, this`lru, this`chains, this`inOrder, bufHash, buf
      ensures HashValid(null)
      ensures Answered(old(State()), requests, outcomes)
      ensures State().slots == After(old(State()), requests, outcomes).slots
      ensures old(inOrder && LruValid()) ==> (inOrder <==> PutsInUse(outcomes))
      ensures old(inOrder && LruValid()) && inOrder ==>
                LruValid() && State() == After(old(State()), requests, outcomes)
                    && Evicts(old(State()), requests, outcomes)
      ensures old(inOrder && LruValid()) && FirstMisuse(outcomes) ==> forall s :: !Listed(s)
      ensures old(inOrder && LruValid()) && (forall b | b in buf :: old(b.count) == 0) ==>
                (inOrder <==> Matched(requests, outcomes))
    {
      hide HashValid, LruValid, Answered, After, Evicts, PutsInUse, Next, Answers, FromFront, InUse, Matched, State,
          Listed;
      ghost var c := State();
      StateIs();
      outcomes := [];
      NoRequests(c);
      for k := 0 to |requests|
        invariant HashValid(null) && |outcomes| == k
        invariant requests[..k] == [] || k > 0
        invariant Answered(c, requests[..k], outcomes)
        invariant State().slots == After(c, requests[..k], outcomes).slots
        invariant old(inOrder && LruValid()) && FirstMisuse(outcomes) ==> forall s :: !Listed(s)
        invariant old(inOrder && LruValid()) ==> (inOrder <==> PutsInUse(outcomes))
        invariant old(inOrder && LruValid()) && inOrder ==>
                    LruValid() && State() == After(c, requests[..k], outcomes) && Evicts(c, requests[..k], outcomes)
      {
        ghost var c1 := State();
        assert requests[k] in requests;
        StateIs();
        var o := Serve(requests[k]);
        StateIs();
        SameSlots(c1, After(c, requests[..k], outcomes), requests[k], o);
        OneMore(c, requests, k, outcomes, o);
        assert (outcomes + [o])[..k] == outcomes;
        outcomes := outcomes + [o];
      }
      assert requests[..|requests|] == requests;
      if forall b | b in buf :: old(b.count) == 0 {
        MatchedIffInUse(c, requests, outcomes);
      }
    }

    lemma OnlyHolder(bp: LruBuf)
      requires HashValid(null) && bp in buf && bp.devno != NO_DEV
      ensures forall b | b in buf && Holds(b, bp.devno, bp.blockno) :: b == bp
    {
    }

    method FetchNew(dev: nat, bnum: nat) returns (bp: LruBuf)
      requires HashValid(null) && LruValid() && lru != [] && forall b | b in buf :: !Holds(b, dev, bnum)
      modifies this`front, this`rear, this`lru, this`chains, bufHash, buf
      ensures HashValid(null) && LruValid()
      ensures bp in buf && Holds(bp, dev, bnum) && bp.count == 1
    {
      hide HashValid, LruValid, Listed, Holds;
      ghost var first := lru[0];
      Unused(first);
      var b, hit := Get(dev, bnum, NORMAL);
      assert !hit && b == first;
      bp := b;
    }

    /** A block that is not in the cache is fetched and put back. */
    method FetchOnce(dev: nat, bnum: nat) returns (bp: LruBuf)
      requires HashValid(null) && LruValid() && lru != [] && forall b | b in buf :: !Holds(b, dev, bnum)
      modifies this`front, this`rear, this`lru, this`chains, bufHash, buf
      ensures HashValid(null) && LruValid()
      ensures bp in buf && Holds(bp, dev, bnum) && bp.count == 0
    {
      hide HashValid, LruValid, Listed, UnheldIn, ListOf;
      bp := FetchNew(dev, bnum);
      PutBlock(bp, false);
    }

    /** The ordinary run that breaks the list, from a new cache or from any other that is in
        order: a block that is not in the cache is fetched and put back, found again, and put
        back again. The hit does not count, so the second put is that of a buffer not in use,
        and the pointers describe no list after it. */
    method HitThenPut(dev: nat, bnum: nat)
      requires HashValid(null) && LruValid() && lru != [] && forall b | b in buf :: !Holds(b, dev, bnum)
      modifies this`front, this`rear, this`lru, this`chains, bufHash, buf
      ensures HashValid(null) && forall s :: !Listed(s)
    {
      hide HashValid, LruValid, Listed, UnheldIn, ListOf;
      var bp := FetchOnce(dev, bnum);
      OnlyHolder(bp);
      var again, hit := Get(dev, bnum, NORMAL);
      assert hit && again == bp;
      PutBlock(again, false);
    }

    lemma Unused(b: LruBuf)
      requires LruValid() && b in lru
      ensures b in buf && b.count == 0
    {
    }
  }
}
