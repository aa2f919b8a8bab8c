/** The directory server's requests as steps over the slots: lookups and tests for emptiness
    run beside one another, links and unlinks run alone. */
module DirServer {
  import opened Common
  import opened Disk
  import opened Names
  import opened DirMap
  import opened Server

  /** A search reads the number of slots first, and then looks at one slot a step. `room`
      tells whether the directory can be extended, and `field` what a new slot holds. */
  datatype Task =
    | Starting(op: DirOp, path: seq<byte>, inum: nat, field: NameField, room: bool)
    | Scanning(op: DirOp, path: seq<byte>, inum: nat, field: NameField, room: bool, oldSlots: nat, i: nat)
    | Answered(answer: Answer, readOnly: bool)

  datatype Answer = Answer(err: Error, inum: nat)

  predicate ReadOnly(op: DirOp) {
    op == LOOKUP || op == IS_EMPTY
  }

  /** Carrying out the operation on slot `i`, at which it stops. */
  function Use(t: Task, slots: Slots): (Answer, Slots)
    requires t.Scanning? && t.i < |slots|
  {
    match t.op
    case LOOKUP => (Answer(OK, slots[t.i].inum), slots)
    case IS_EMPTY => (Answer(ENOTEMPTY, t.inum), slots)
    case DELETE => (Answer(OK, t.inum), slots[t.i := slots[t.i].(inum := 0)])
    case ENTER => (Answer(OK, t.inum), slots[t.i := Dirent(t.inum, Named(slots[t.i].name, t.path))])
  }

  /** Past the last slot. */
  function Finish(t: Task, slots: Slots): (Answer, Slots)
    requires t.Scanning?
  {
    match t.op
    case LOOKUP => (Answer(ENOENT, t.inum), slots)
    case IS_EMPTY => (Answer(OK, t.inum), slots)
    case DELETE => (Answer(ENOENT, t.inum), slots)
    case ENTER =>
      if t.room then (Answer(OK, t.inum), slots + [Dirent(t.inum, Named(t.field, t.path))])
      else (Answer(ENOSPC, t.inum), slots)
  }

  function Step(t: Task, slots: Slots): (Task, Slots) {
    match t
    case Starting(op, path, inum, field, room) => (Scanning(op, path, inum, field, room, |slots|, 0), slots)
    case Scanning(op, path, _, _, _, oldSlots, i) =>
      if i < oldSlots && i < |slots| then
        if Stops(op, path, slots[i]) then
          var (a, slots') := Use(t, slots);
          (Answered(a, ReadOnly(op)), slots')
        else (t.(i := i + 1), slots)
      else
        var (a, slots') := Finish(t, slots);
        (Answered(a, ReadOnly(op)), slots')
    case Answered(_, _) => (t, slots)
  }

  function DirOps(): Ops<Slots, Task, Answer> {
    Ops(
      Step,
      (t: Task) => if t.Answered? then Some(t.answer) else None,
      (t: Task) => match t case Starting(_, _, _, _, _) => 2 case Scanning(_, _, _, _, _, _, _) => 1 case Answered(_,
          _) => 0,
      (t: Task) => if t.Scanning? && t.i <= t.oldSlots then t.oldSlots - t.i else 0,
      (t: Task) => if t.Answered? then t.readOnly else ReadOnly(t.op))
  }

  lemma DirOpsValid()
    ensures Valid(DirOps())
  {
  }

  /** A search on its own goes to the slot where it stops. */
  lemma {:induction false} ScanAlone(t: Task, slots: Slots)
    requires t.Scanning? && t.oldSlots == |slots| && t.i <= |slots|
    ensures Valid(DirOps())
    ensures
      var s := FirstStop(t.op, t.path, slots, t.i);
      Run(DirOps(), t, slots) == if s < |slots| then Use(t.(i := s), slots) else Finish(t.(i := s), slots)
    decreases |slots| - t.i
  {
    DirOpsValid();
    if t.i < |slots| && !Stops(t.op, t.path, slots[t.i]) {
      ScanAlone(t.(i := t.i + 1), slots);
    } else {
      var (t', slots') := Step(t, slots);
      assert Run(DirOps(), t', slots') == (t'.answer, slots');
    }
  }

  /** What each request answers and leaves behind when it runs on its own. */
  lemma DirAlone(op: DirOp, path: seq<byte>, inum: nat, field: NameField, room: bool, slots: Slots)
    ensures Valid(DirOps())
    ensures
      var (a, slots') := Run(DirOps(), Starting(op, path, inum, field, room), slots);
      match op
      case LOOKUP =>
        a.err == Lookup(slots, path).0 && (a.err == OK ==> a.inum == Lookup(slots, path).1) && slots' == slots
      case IS_EMPTY => a.err == IsEmpty(slots) && slots' == slots
      case DELETE => (a.err, slots') == Delete(slots, path)
      case ENTER =>
        if room || FirstStop(ENTER, path, slots, 0) < |slots|
        then a.err == OK && slots' == Enter(slots, path, inum, field)
        else a.err == ENOSPC && slots' == slots
  {
    DirOpsValid();
    var t := Scanning(op, path, inum, field, room, |slots|, 0);
    ScanAlone(t, slots);
    assert Step(Starting(op, path, inum, field, room), slots) == (t, slots);
    IsEmptyPath(path, slots);
  }

  // ----- runs

  /** A request the file system makes: names without NULs that fit their field, and a link
      only under a name that is not in the directory. */
  ghost predicate Proper(t: Task, slots: Slots) {
    && t.Starting?
    && (t.op != IS_EMPTY ==> ValidName(t.path))
    && (t.op == ENTER ==> t.inum != 0 && t.path !in AsMap(slots))
  }

  /** The requests taken so far, each proper when its turn comes. */
  ghost predicate ProperLog(s0: Slots, log: seq<Task>)
    requires Valid(DirOps())
  {
    forall k: nat | k < |log| :: Proper(log[k], SeqState(DirOps(), s0, log[..k]))
  }

  /** A request on a finite map, and its answer. */
  ghost predicate MapAnswers(t: Task, m: map<seq<byte>, nat>, a: Answer, m': map<seq<byte>, nat>)
    requires t.Starting?
  {
    match t.op
    case LOOKUP => (if t.path in m then a == Answer(OK, m[t.path]) else a.err == ENOENT) && m' == m
    case IS_EMPTY => a.err == (if m.Keys <= {DOT, DOTDOT} then OK else ENOTEMPTY) && m' == m
    case DELETE => a.err == (if t.path in m then OK else ENOENT) && m' == m - {t.path}
    case ENTER => if a.err == OK then m' == m[t.path := t.inum] else a.err == ENOSPC && !t.room && m' == m
  }

  /** A proper request does to the directory what it does to the map. */
  lemma ProperStep(t: Task, slots: Slots)
    requires Valid(DirOps()) && Unique(slots) && Proper(t, slots)
    ensures
      var (a, slots') := Run(DirOps(), t, slots);
      Unique(slots') && MapAnswers(t, AsMap(slots), a, AsMap(slots'))
  {
    DirAlone(t.op, t.path, t.inum, t.field, t.room, slots);
    match t.op
    case LOOKUP => LookupIsMapLookup(slots, t.path);
    case IS_EMPTY => IsEmptyIff(slots);
    case DELETE => DeleteRemoves(slots, t.path);
    case ENTER => EnterInserts(slots, t.path, t.inum, t.field);
  }

  lemma {:induction false} UniqueThroughout(s0: Slots, log: seq<Task>, k: nat)
    requires Valid(DirOps()) && Unique(s0) && ProperLog(s0, log) && k <= |log|
    ensures Unique(SeqState(DirOps(), s0, log[..k]))
  {
    if k > 0 {
      UniqueThroughout(s0, log, k - 1);
      assert log[..k][..k - 1] == log[..k - 1];
      ProperStep(log[k - 1], SeqState(DirOps(), s0, log[..k - 1]));
    }
  }

  /** At every point of every run of the server, every answer given is the answer of a finite
      map that takes the requests one at a time, in the order of submission. */
  lemma AnswersOfAMap(s0: Slots, states: seq<State<Slots, Task, Answer>>, actions: seq<Action<Task>>, i: nat, k: nat)
    requires Valid(DirOps()) && IsRun(DirOps(), s0, states, actions) && i < |states| && k in states[i].done
    requires Unique(s0) && ProperLog(s0, states[i].log)
    ensures k < |states[i].log| <= |states[i].submitted| && states[i].log[k] == states[i].submitted[k]
    ensures
      var log := states[i].log;
      MapAnswers(log[k], AsMap(SeqState(DirOps(), s0, log[..k])), states[i].done[k],
          AsMap(SeqState(DirOps(), s0, log[..k + 1])))
  {
    Linearizable(DirOps(), s0, states, actions, i);
    var log := states[i].log;
    UniqueThroughout(s0, log, k);
    ProperStep(log[k], SeqState(DirOps(), s0, log[..k]));
    assert log[..k + 1][..k] == log[..k];
  }
}
