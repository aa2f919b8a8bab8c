/** A directory as a sequence of slots, and as the finite map it stands for. */
module DirMap {
  import opened Common
  import opened Disk
  import opened Names

  datatype DirOp = LOOKUP | ENTER | DELETE | IS_EMPTY

  type Slots = seq<Dirent>

  /** A slot at which the search for `op` stops. */
  predicate Stops(op: DirOp, path: seq<byte>, d: Dirent) {
    match op
    case ENTER => d.inum == 0
    case IS_EMPTY => d.inum != 0 && !NameIs(d.name, DOT) && !NameIs(d.name, DOTDOT)
    case _ => d.inum != 0 && NameIs(d.name, path)
  }

  /** The first slot from `i` on at which the search stops, or the end. */
  function FirstStop(op: DirOp, path: seq<byte>, slots: Slots, i: nat): (s: nat)
    requires i <= |slots|
    ensures i <= s <= |slots|
    ensures s < |slots| ==> Stops(op, path, slots[s])
    ensures forall j | i <= j < s :: !Stops(op, path, slots[j])
    decreases |slots| - i
  {
    if i == |slots| || Stops(op, path, slots[i]) then i else FirstStop(op, path, slots, i + 1)
  }

  lemma FirstStopIs(op: DirOp, path: seq<byte>, slots: Slots, s: nat)
    requires s <= |slots| && (s < |slots| ==> Stops(op, path, slots[s]))
    requires forall j | 0 <= j < s :: !Stops(op, path, slots[j])
    ensures FirstStop(op, path, slots, 0) == s
  {
  }

  /** The test for emptiness does not look at the path. */
  lemma {:induction false} IsEmptyPath(path: seq<byte>, slots: Slots, i: nat := 0)
    requires i <= |slots|
    ensures FirstStop(IS_EMPTY, path, slots, i) == FirstStop(IS_EMPTY, [], slots, i)
    decreases |slots| - i
  {
    if i < |slots| && !Stops(IS_EMPTY, path, slots[i]) {
      IsEmptyPath(path, slots, i + 1);
    }
  }

  // ----- the four operations on slots

  function Lookup(slots: Slots, path: seq<byte>): (Error, nat) {
    var s := FirstStop(LOOKUP, path, slots, 0);
    if s < |slots| then (OK, slots[s].inum) else (ENOENT, 0)
  }

  function Delete(slots: Slots, path: seq<byte>): (Error, Slots) {
    var s := FirstStop(DELETE, path, slots, 0);
    if s < |slots| then (OK, slots[s := slots[s].(inum := 0)]) else (ENOENT, slots)
  }

  function IsEmpty(slots: Slots): Error {
    if FirstStop(IS_EMPTY, [], slots, 0) < |slots| then ENOTEMPTY else OK
  }

  /** Entering into the first free slot, or one past the end; the field there was `field`. */
  function Enter(slots: Slots, path: seq<byte>, inum: nat, field: NameField): Slots {
    var s := FirstStop(ENTER, path, slots, 0);
    if s < |slots| then slots[s := Dirent(inum, Named(slots[s].name, path))]
    else slots + [Dirent(inum, Named(field, path))]
  }

  // ----- the directory as a map

  ghost predicate Live(slots: Slots, s: int) {
    0 <= s < |slots| && slots[s].inum != 0
  }

  /** No two live slots hold the same name. */
  ghost predicate Unique(slots: Slots) {
    forall s, t | Live(slots, s) && Live(slots, t) && s != t :: NameOf(slots[s].name) != NameOf(slots[t].name)
  }

  ghost predicate Bound(slots: Slots, name: seq<byte>, s: int) {
    Live(slots, s) && NameOf(slots[s].name) == name
  }

  ghost function AllNames(slots: Slots): set<seq<byte>> {
    set s | 0 <= s < |slots| && Live(slots, s) :: NameOf(slots[s].name)
  }

  /** The directory as a map from names to inode numbers. */
  ghost function AsMap(slots: Slots): map<seq<byte>, nat> {
    map name | name in AllNames(slots) :: SlotOf(slots, name)
  }

  ghost function SlotOf(slots: Slots, name: seq<byte>): nat
    requires name in AllNames(slots)
  {
    var s :| 0 <= s < |slots| && Live(slots, s) && NameOf(slots[s].name) == name;
    slots[s].inum
  }

  lemma AsMapAt(slots: Slots, s: int)
    requires Unique(slots) && Live(slots, s)
    ensures NameOf(slots[s].name) in AsMap(slots) && AsMap(slots)[NameOf(slots[s].name)] == slots[s].inum
  {
    var name := NameOf(slots[s].name);
    assert Bound(slots, name, s);
    assert forall t | Bound(slots, name, t) :: t == s;
  }

  lemma AsMapOnly(slots: Slots, name: seq<byte>) returns (s: int)
    requires Unique(slots) && name in AsMap(slots)
    ensures Bound(slots, name, s) && AsMap(slots)[name] == slots[s].inum
  {
    s :| 0 <= s < |slots| && Live(slots, s) && NameOf(slots[s].name) == name;
    AsMapAt(slots, s);
  }

  /** A name a directory entry can hold. */
  predicate ValidName(name: seq<byte>) {
    0 !in name && |name| <= NAME_MAX
  }

  /** Looking up a name is looking it up in the map. */
  lemma LookupIsMapLookup(slots: Slots, name: seq<byte>)
    requires Unique(slots) && 0 !in name
    ensures Lookup(slots, name) == if name in AsMap(slots) then (OK, AsMap(slots)[name]) else (ENOENT, 0)
  {
    var s := FirstStop(LOOKUP, name, slots, 0);
    if s < |slots| {
      NameIsOf(slots[s].name, name);
      AsMapAt(slots, s);
    } else if name in AsMap(slots) {
      var t := AsMapOnly(slots, name);
      NameIsOf(slots[t].name, name);
      assert false;
    }
  }

  /** `slots'` is `slots` with slot `s`, or the one past the end, changed to something whose
      name is new, or to a free slot. */
  ghost predicate OneSlot(slots: Slots, slots': Slots, s: int) {
    && 0 <= s < |slots'| && s <= |slots|
    && |slots'| == (if s < |slots| then |slots| else s + 1)
    && (forall t | 0 <= t < |slots| && t != s :: slots'[t] == slots[t])
    && (slots'[s].inum != 0 ==> NameOf(slots'[s].name) !in AllNames(slots))
  }

  lemma UniqueUpdate(slots: Slots, slots': Slots, s: int)
    requires Unique(slots) && OneSlot(slots, slots', s)
    ensures Unique(slots')
  {
    forall a, b | Live(slots', a) && Live(slots', b) && a != b
      ensures NameOf(slots'[a].name) != NameOf(slots'[b].name)
    {
      assert a == s || Live(slots, a);
      assert b == s || Live(slots, b);
    }
  }

  lemma NewName(slots: Slots, slots': Slots, s: int)
    requires OneSlot(slots, slots', s)
    ensures Live(slots', s) ==> NameOf(slots'[s].name) !in AsMap(slots)
  {
  }

  lemma StaysLive(slots: Slots, slots': Slots, s: int, t: int)
    requires Unique(slots) && OneSlot(slots, slots', s) && t != s
    ensures Live(slots', t) <==> Live(slots, t)
    ensures Live(slots, t) ==> slots'[t] == slots[t] && NameOf(slots[t].name) in AllNames(slots)
    ensures Live(slots, t) && Live(slots, s) ==> NameOf(slots[t].name) != NameOf(slots[s].name)
  {
  }

  /** The map with the name in slot `s` of `slots` removed, and that of `slots'` added. */
  ghost function Updated(slots: Slots, slots': Slots, s: int): map<seq<byte>, nat> {
    var m := if Live(slots, s) then AsMap(slots) - {NameOf(slots[s].name)} else AsMap(slots);
    if Live(slots', s) then m[NameOf(slots'[s].name) := slots'[s].inum] else m
  }

  lemma UpdatedFrom(slots: Slots, slots': Slots, s: int, name: seq<byte>)
    requires Unique(slots) && OneSlot(slots, slots', s) && Unique(slots') && name in AsMap(slots')
    ensures name in Updated(slots, slots', s) && Updated(slots, slots', s)[name] == AsMap(slots')[name]
  {
    hide NameOf, Unique, OneSlot, AsMap, AllNames;
    NewName(slots, slots', s);
    var t := AsMapOnly(slots', name);
    if t != s {
      StaysLive(slots, slots', s, t);
      AsMapAt(slots, t);
    }
  }

  lemma UpdatedTo(slots: Slots, slots': Slots, s: int, name: seq<byte>)
    requires Unique(slots) && OneSlot(slots, slots', s) && Unique(slots') && name in Updated(slots, slots', s)
    ensures name in AsMap(slots')
  {
    hide NameOf, Unique, OneSlot, AsMap, AllNames;
    if Live(slots', s) && name == NameOf(slots'[s].name) {
      AsMapAt(slots', s);
    } else {
      var t := AsMapOnly(slots, name);
      StaysLive(slots, slots', s, t);
      AsMapAt(slots', t);
    }
  }

  /** Changing one slot so that the live names stay unique. */
  lemma AsMapUpdate(slots: Slots, slots': Slots, s: int)
    requires Unique(slots) && OneSlot(slots, slots', s)
    ensures Unique(slots')
    ensures AsMap(slots') == Updated(slots, slots', s)
  {
    UniqueUpdate(slots, slots', s);
    hide NameOf, Unique, OneSlot, AsMap, AllNames, Updated;
    forall name | name in AsMap(slots')
      ensures name in Updated(slots, slots', s) && Updated(slots, slots', s)[name] == AsMap(slots')[name]
    {
      UpdatedFrom(slots, slots', s, name);
    }
    forall name | name in Updated(slots, slots', s)
      ensures name in AsMap(slots')
    {
      UpdatedTo(slots, slots', s, name);
    }
  }

  /** Entering a new name inserts it, and reuses a free slot if there is one. */
  lemma EnterInserts(slots: Slots, name: seq<byte>, inum: nat, field: NameField)
    requires Unique(slots) && ValidName(name) && inum != 0 && name !in AsMap(slots)
    ensures
      var slots' := Enter(slots, name, inum, field);
      && Unique(slots')
      && AsMap(slots') == AsMap(slots)[name := inum]
      && |slots'| == (if exists s :: 0 <= s < |slots| && !Live(slots, s) then |slots| else |slots| + 1)
      // the slot taken is the first one free
      && forall s | 0 <= s < |slots'| && (s < |slots| ==> !Live(slots, s))
             && (forall j | 0 <= j < s :: Live(slots, j)) ::
           slots'[s].inum == inum && forall j | 0 <= j < |slots| && j != s :: slots'[j] == slots[j]
  {
    var s := FirstStop(ENTER, name, slots, 0);
    var slots' := Enter(slots, name, inum, field);
    NamedHolds(if s < |slots| then slots[s].name else field, name);
    assert name[..|name|] == name;
    AsMapUpdate(slots, slots', s);
  }

  /** Deleting a name removes it, or fails if it is not there. */
  lemma DeleteRemoves(slots: Slots, name: seq<byte>)
    requires Unique(slots) && 0 !in name
    ensures
      var (err, slots') := Delete(slots, name);
      && (err == OK <==> name in AsMap(slots))
      && Unique(slots') && |slots'| == |slots|
      && AsMap(slots') == AsMap(slots) - {name}
  {
    var s := FirstStop(DELETE, name, slots, 0);
    if s < |slots| {
      NameIsOf(slots[s].name, name);
      AsMapAt(slots, s);
      AsMapUpdate(slots, Delete(slots, name).1, s);
    } else if name in AsMap(slots) {
      var t := AsMapOnly(slots, name);
      NameIsOf(slots[t].name, name);
      assert false;
    }
  }

  /** A directory is empty if its map holds nothing but `.` and `..`. */
  lemma IsEmptyIff(slots: Slots)
    requires Unique(slots)
    ensures IsEmpty(slots) == OK <==> AsMap(slots).Keys <= {DOT, DOTDOT}
  {
    var s := FirstStop(IS_EMPTY, [], slots, 0);
    if s < |slots| {
      NameIsOf(slots[s].name, DOT);
      NameIsOf(slots[s].name, DOTDOT);
      AsMapAt(slots, s);
    } else {
      forall name | name in AsMap(slots)
        ensures name in {DOT, DOTDOT}
      {
        var t := AsMapOnly(slots, name);
        NameIsOf(slots[t].name, DOT);
        NameIsOf(slots[t].name, DOTDOT);
      }
    }
  }

  /** What was linked is found, and what was unlinked is not; other names are not affected. */
  lemma EnterThenLookup(slots: Slots, name: seq<byte>, inum: nat, field: NameField, other: seq<byte>)
    requires Unique(slots) && ValidName(name) && inum != 0 && name !in AsMap(slots)
    requires 0 !in other
    ensures Lookup(Enter(slots, name, inum, field), name) == (OK, inum)
    ensures Delete(Enter(slots, name, inum, field), name).0 == OK
    ensures AsMap(Delete(Enter(slots, name, inum, field), name).1) == AsMap(slots)
    ensures other != name ==> Lookup(Enter(slots, name, inum, field), other) == Lookup(slots, other)
  {
    var slots' := Enter(slots, name, inum, field);
    EnterInserts(slots, name, inum, field);
    LookupIsMapLookup(slots', name);
    LookupIsMapLookup(slots', other);
    LookupIsMapLookup(slots, other);
    DeleteRemoves(slots', name);
  }

  /** Entering a name keeps names unique exactly if it is not there yet. */
  lemma EnterUniqueIff(slots: Slots, name: seq<byte>, inum: nat, field: NameField)
    requires Unique(slots) && ValidName(name) && inum != 0
    ensures Unique(Enter(slots, name, inum, field)) <==> name !in AsMap(slots)
  {
    if name in AsMap(slots) {
      var slots' := Enter(slots, name, inum, field);
      var s := FirstStop(ENTER, name, slots, 0);
      var t := AsMapOnly(slots, name);
      NamedHolds(if s < |slots| then slots[s].name else field, name);
      assert name[..|name|] == name;
      assert s != t && Live(slots', s) && Live(slots', t) && NameOf(slots'[s].name) == NameOf(slots'[t].name);
    } else {
      EnterInserts(slots, name, inum, field);
    }
  }

  /** A path longer than a field is linked under its first bytes, and not found again. */
  lemma LongNameLost(slots: Slots, path: seq<byte>, inum: nat, field: NameField)
    requires inum != 0
    ensures Lookup(Enter(slots, path, inum, field), path).0 == OK <==> |path| <= NAME_MAX
  {
    var s, slots' := FirstStop(ENTER, path, slots, 0), Enter(slots, path, inum, field);
    NamedFound(if s < |slots| then slots[s].name else field, path);
    if |path| > NAME_MAX {
      assert forall d: Dirent | d in slots' :: !NameIs(d.name, path);
    } else {
      assert Stops(LOOKUP, path, slots'[s]);
    }
  }
}
