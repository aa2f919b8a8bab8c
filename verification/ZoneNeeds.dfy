/** How many zones a tree needs to hold one more: those that are lacking at its place and at the
    places above it. */
module ZoneNeeds {
  import opened Common
  import opened Disk
  import opened Bitmaps
  import opened ZoneTree

  /** The empty places that must be taken before place `m` can hold a zone: itself and those
      above it. */
  ghost function Lacking(v: View, m: Node): set<Node> {
    set p | p in v && (p == m || Above(p, m)) && v[p] == NO_ZONE
  }

  /** How many zones it takes until place `m` can hold one. */
  ghost function Needs(v: View, m: Node): nat {
    |Lacking(v, m)|
  }

  function One(empty: bool): nat {
    if empty then 1 else 0
  }

  function OnlyIf(empty: bool, p: Node): (s: set<Node>)
    ensures |s| == One(empty)
  {
    if empty then {p} else {}
  }

  lemma LackingDirect(v: View, k: nat)
    requires Direct(k) in v
    ensures |Lacking(v, Direct(k))| == One(v[Direct(k)] == NO_ZONE)
  {
    assert Lacking(v, Direct(k)) == OnlyIf(v[Direct(k)] == NO_ZONE, Direct(k));
  }

  lemma LackingSingle(v: View, j: nat)
    requires SingleEntry(j) in v && Single in v
    ensures |Lacking(v, SingleEntry(j))| == One(v[SingleEntry(j)] == NO_ZONE) + One(v[Single] == NO_ZONE)
  {
    var a, b := OnlyIf(v[SingleEntry(j)] == NO_ZONE, SingleEntry(j)), OnlyIf(v[Single] == NO_ZONE, Single);
    assert Lacking(v, SingleEntry(j)) == a + b;
    DisjointSize(a, b);
  }

  lemma LackingDouble(v: View, i: nat, j: nat)
    requires ChildEntry(i, j) in v && Double in v && Child(i) in v
    ensures |Lacking(v, ChildEntry(i, j))| ==
            One(v[ChildEntry(i, j)] == NO_ZONE) + One(v[Double] == NO_ZONE) + One(v[Child(i)] == NO_ZONE)
  {
    var m := ChildEntry(i, j);
    var above := set p | p in {Double, Child(i)} && v[p] == NO_ZONE;
    var own := OnlyIf(v[m] == NO_ZONE, m);
    assert Lacking(v, m) == own + above;
    DisjointSize(own, above);
    BothAbove(v, i);
  }

  lemma BothAbove(v: View, i: nat)
    requires Double in v && Child(i) in v
    ensures |set p | p in {Double, Child(i)} && v[p] == NO_ZONE| ==
            One(v[Double] == NO_ZONE) + One(v[Child(i)] == NO_ZONE)
  {
    var b, c := OnlyIf(v[Double] == NO_ZONE, Double), OnlyIf(v[Child(i)] == NO_ZONE, Child(i));
    assert (set p | p in {Double, Child(i)} && v[p] == NO_ZONE) == b + c;
    DisjointSize(b, c);
  }

  lemma DisjointSize(a: set<Node>, b: set<Node>)
    requires a !! b
    ensures |a + b| == |a| + |b|
  {
  }

  /** The zones that the `k`th zone of a file still needs, by numbers: one for itself if it is
      not there, and one for each indirect block on the way to it that is not there. */
  lemma LackingMeans(g: DeviceInfo, zone: seq<nat>, blocks: map<nat, Block>, k: nat)
    requires |zone| == V2_NR_TZONES && 0 < g.blocksize / 4
    ensures
      var n := g.blocksize / 4;
      var need := Needs(ViewOf(g, zone, blocks), DataNode(g, k));
      var there := ZoneAt(g, zone, blocks, DataNode(g, k)) != NO_ZONE;
      && (k < 7 ==> need == if there then 0 else 1)
      && (7 <= k < 7 + n ==> need == if there then 0 else if zone[7] != 0 then 1 else 2)
      && (7 + n <= k < 7 + n + n * n ==>
            need == if there then 0
                    else if zone[8] == 0 then 3
                    else if Entry(g, blocks, zone[8], (k - 7 - n) / n) == 0 then 2 else 1)
  {
    hide Lacking;
    var n, v, m := NrIndirects(g), ViewOf(g, zone, blocks), DataNode(g, k);
    DataNodeValid(g, k);
    RootPlaces(n);
    if k < 7 {
      LackingDirect(v, k);
    } else if k < 7 + n {
      LackingSingle(v, k - 7);
    } else if k < MaxZones(g) {
      LackingDouble(v, m.i, m.j);
    }
  }

  /** A place that holds a zone lacks nothing. */
  lemma NothingLacking(g: DeviceInfo, zone: seq<nat>, blocks: map<nat, Block>, m: Node)
    requires |zone| == V2_NR_TZONES && m in Nodes(NrIndirects(g)) && !m.Interior()
    ensures m in ViewOf(g, zone, blocks)
    ensures ViewOf(g, zone, blocks)[m] != NO_ZONE ==>
              Lacking(ViewOf(g, zone, blocks), m) == {} && Needs(ViewOf(g, zone, blocks), m) == 0
    ensures ViewOf(g, zone, blocks)[m] == NO_ZONE ==> m in Lacking(ViewOf(g, zone, blocks), m)
  {
    RootPlaces(NrIndirects(g));
  }

  /** An interior place above `m` is still empty. */
  ghost predicate Stuck(v: View, m: Node) {
    exists p :: p in v && Above(p, m) && v[p] == NO_ZONE
  }

  /** Different places of a tree hold different zones. */
  lemma {:induction false} ZonesCounted(v: View, a: set<Node>)
    requires Distinct(v) && forall p | p in a :: p in v && v[p] != NO_ZONE
    ensures |set p | p in a :: v[p]| == |a|
  {
    var zs := set p | p in a :: v[p];
    if a == {} {
      assert zs == {};
    } else {
      var q :| q in a;
      var b := a - {q};
      ZonesCounted(v, b);
      var ys := set p | p in b :: v[p];
      assert v[q] !in ys;
      assert zs == ys + {v[q]};
    }
  }

  /** The places that a tree took when it grew at and above `m`. */
  lemma TakenPlaces(v: View, v': View, m: Node)
    requires GrewAbove(v, v', m) && m in v && (v[m] != NO_ZONE ==> v'[m] == v[m])
    ensures Lacking(v', m) <= Lacking(v, m)
    ensures forall p :: p in Lacking(v, m) - Lacking(v', m) <==> p in v && v[p] == NO_ZONE && v'[p] != NO_ZONE
    ensures forall p | p in v && v[p] != NO_ZONE :: v'[p] == v[p]
  {
  }

  /** The zones a tree has taken are those at the places it has taken. */
  lemma TakenZones(v: View, v': View, a: set<Node>)
    requires v'.Keys == v.Keys && Distinct(v')
    requires forall p | p in v && v[p] != NO_ZONE :: v'[p] == v[p]
    requires forall p :: p in a <==> p in v && v[p] == NO_ZONE && v'[p] != NO_ZONE
    ensures TreeZones(v') - TreeZones(v) == set p | p in a :: v'[p]
  {
    var zs := set p | p in a :: v'[p];
    forall z | z in TreeZones(v') && z !in TreeZones(v)
      ensures z in zs
    {
      var p :| p in v' && v'[p] == z;
      assert p in a;
    }
    forall p, q | p in a && q in v && v[q] != NO_ZONE
      ensures v[q] != v'[p]
    {
      assert v'[q] == v[q] && q != p;
    }
  }

  /** A tree that grew at and above `m` has taken as many zones as places. */
  lemma TakenCounted(v: View, marks: set<nat>, v': View, marks': set<nat>, m: Node)
    requires GrewAbove(v, v', m) && m in v && (v[m] != NO_ZONE ==> v'[m] == v[m])
    requires Accounted(v, marks, v', marks', NO_ZONE) && Distinct(v')
    ensures Lacking(v', m) <= Lacking(v, m)
    ensures |marks'| == |marks| + |Lacking(v, m) - Lacking(v', m)|
  {
    TakenPlaces(v, v', m);
    hide Lacking;
    var a := Lacking(v, m) - Lacking(v', m);
    TakenZones(v, v', a);
    ZonesCounted(v', a);
    var taken := TreeZones(v') - TreeZones(v);
    assert taken - {NO_ZONE} == taken && marks' == marks + taken;
    hide Lacking, TreeZones, GrewAbove, Distinct;
    assert |marks + taken| == |marks| + |taken|;
  }

  /** Growing a tree at and above `m` succeeds exactly if as many zones are free as are lacking:
      when it succeeds nothing is lacking any more, and when it fails at most one zone is left,
      while `m` itself is lacking, and a place above it too if one zone is left. */
  lemma GrewIffRoom(v: View, marks: set<nat>, v': View, marks': set<nat>, all: set<nat>, m: Node, ok: bool, left: nat)
    requires GrewAbove(v, v', m) && m in v && (v[m] != NO_ZONE ==> v'[m] == v[m])
    requires Accounted(v, marks, v', marks', NO_ZONE) && Distinct(v') && marks <= all && marks' <= all
    requires ok ==> Lacking(v', m) == {}
    requires !ok ==> v'[m] == NO_ZONE && |all| - |marks'| <= left <= 1 && (left == 1 ==> Stuck(v', m))
    ensures ok <==> |Lacking(v, m)| <= |all - marks|
  {
    TakenCounted(v, marks, v', marks', m);
    var a, b := Lacking(v, m), Lacking(v', m);
    if !ok {
      StillLacking(v', m, left);
    }
    SubsetSize(marks, all);
    SubsetSize(marks', all);
    SubsetSize(b, a);
  }

  lemma StillLacking(v: View, m: Node, left: nat)
    requires m in v && v[m] == NO_ZONE && left <= 1 && (left == 1 ==> Stuck(v, m))
    ensures |Lacking(v, m)| > left
  {
    SubsetSize({m}, Lacking(v, m));
    if left == 1 {
      var p :| p in v && Above(p, m) && v[p] == NO_ZONE;
      SubsetSize({m, p}, Lacking(v, m));
    }
  }

  lemma SubsetSize<T>(a: set<T>, b: set<T>)
    requires a <= b
    ensures |a| <= |b| && |b - a| == |b| - |a|
  {
    assert b == a + (b - a);
  }

  /** The outcome of making room at place `m`, with `all` zones on the device: it succeeds
      exactly if as many zones are free as are lacking, and then exactly the lacking places have
      been taken, with one zone for each. */
  ghost predicate TookLacking(v: View, marks: set<nat>, v': View, marks': set<nat>, all: set<nat>, m: Node, ok: bool) {
    && v'.Keys == v.Keys && marks <= all && marks' <= all
    && (forall p | p in v && v[p] != NO_ZONE :: v'[p] == v[p])
    && (ok <==> |Lacking(v, m)| <= |all - marks|)
    && (ok ==> forall p | p in v && v[p] == NO_ZONE :: v'[p] != NO_ZONE <==> p in Lacking(v, m))
    && (ok ==> |marks'| == |marks| + |Lacking(v, m)|)
  }

  lemma GrewTook(v: View, marks: set<nat>, v': View, marks': set<nat>, all: set<nat>, m: Node, ok: bool)
    requires GrewAbove(v, v', m) && m in v && (v[m] != NO_ZONE ==> v'[m] == v[m])
    requires Accounted(v, marks, v', marks', NO_ZONE) && Distinct(v') && marks <= all && marks' <= all
    requires ok <==> |Lacking(v, m)| <= |all - marks|
    requires ok ==> Lacking(v', m) == {}
    ensures TookLacking(v, marks, v', marks', all, m, ok)
  {
    TakenPlaces(v, v', m);
    TakenCounted(v, marks, v', marks', m);
    if ok {
      assert Lacking(v, m) - Lacking(v', m) == Lacking(v, m);
    }
  }

  /** From `v` to `v'` exactly the empty places in `s` have been taken, with one zone each. */
  ghost predicate Spent(v: View, marks: set<nat>, v': View, marks': set<nat>, s: set<Node>) {
    && v'.Keys == v.Keys
    && (forall p | p in v && v[p] != NO_ZONE :: v'[p] == v[p])
    && (forall p | p in v && v[p] == NO_ZONE :: v'[p] != NO_ZONE <==> p in s)
    && |marks'| == |marks| + |s|
  }

  /** Then making room at `m` spends what `m` lacks besides, or fails for it. */
  lemma SpentMore(v: View, marks: set<nat>, v1: View, marks1: set<nat>, v2: View, marks2: set<nat>, all: set<nat>,
        s: set<Node>, m: Node, t: set<Node>, ok: bool)
    requires Spent(v, marks, v1, marks1, s) && marks <= all
    requires TookLacking(v1, marks1, v2, marks2, all, m, ok)
    requires s <= v.Keys && (forall p | p in s :: v[p] == NO_ZONE)
    requires forall p :: p in t <==> p in s || (p in v && v[p] == NO_ZONE && (p == m || Above(p, m)))
    ensures ok ==> Spent(v, marks, v2, marks2, t) && |t| <= |all - marks|
    ensures !ok ==> |t| > |all - marks|
  {
    var more := Lacking(v1, m);
    assert t == s + more;
    assert s !! more;
    assert |t| == |s| + |more|;
    SubsetSize(marks, all);
    SubsetSize(marks1, all);
    SubsetSize(marks2, all);
  }
}
