/** The file and directory servers as a protocol: reads run beside one another, each in many
    steps; a write waits for them, and runs alone. Every interleaving gives each request the
    answer it would get if requests ran one at a time, in the order the server took them. */
module Server {
  import opened Common

  /** What a request does, step by step: `step` moves its local state on and may change the
      shared state; `result` tells when it is finished; `left` bounds the steps left in a
      phase, and `phase` the phases left. */
  datatype Ops<!S, !L, !R> = Ops(
    step: (L, S) -> (L, S),
    result: L -> Option<R>,
    phase: L -> nat,
    left: L -> nat,
    readOnly: L -> bool)

  predicate Closer<S, L, R>(ops: Ops<S, L, R>, l': L, l: L) {
    ops.phase(l') < ops.phase(l) || (ops.phase(l') == ops.phase(l) && ops.left(l') < ops.left(l))
  }

  ghost predicate Valid<S(!new), L(!new), R(!new)>(ops: Ops<S, L, R>) {
    forall l: L, s: S | ops.result(l) == None ::
      && Closer(ops, ops.step(l, s).0, l)
      && (ops.readOnly(l) ==> ops.step(l, s).1 == s && ops.readOnly(ops.step(l, s).0))
  }

  /** Running a request to its end on its own. */
  ghost function Run<S(!new), L(!new), R(!new)>(ops: Ops<S, L, R>, l: L, s: S): (R, S)
    requires Valid(ops)
    decreases ops.phase(l), ops.left(l)
  {
    match ops.result(l)
    case Some(r) => (r, s)
    case None => var (l', s') := ops.step(l, s); Run(ops, l', s')
  }

  lemma {:induction false} ReadsChangeNothing<S(!new), L(!new), R(!new)>(ops: Ops<S, L, R>, l: L, s: S)
    requires Valid(ops) && ops.readOnly(l)
    ensures Run(ops, l, s).1 == s
    decreases ops.phase(l), ops.left(l)
  {
    if ops.result(l) == None {
      ReadsChangeNothing(ops, ops.step(l, s).0, s);
    }
  }

  // ----- requests one at a time

  ghost function SeqState<S(!new), L(!new), R(!new)>(ops: Ops<S, L, R>, s0: S, log: seq<L>): S
    requires Valid(ops)
  {
    if log == [] then s0 else Run(ops, log[|log| - 1], SeqState(ops, s0, log[..|log| - 1])).1
  }

  /** The answer to request `k`. */
  ghost function SeqResult<S(!new), L(!new), R(!new)>(ops: Ops<S, L, R>, s0: S, log: seq<L>, k: nat): R
    requires Valid(ops) && k < |log|
  {
    Run(ops, log[k], SeqState(ops, s0, log[..k])).0
  }

  lemma SeqAppend<S(!new), L(!new), R(!new)>(ops: Ops<S, L, R>, s0: S, log: seq<L>, l: L)
    requires Valid(ops)
    ensures SeqState(ops, s0, log + [l]) == Run(ops, l, SeqState(ops, s0, log)).1
    ensures SeqResult(ops, s0, log + [l], |log|) == Run(ops, l, SeqState(ops, s0, log)).0
    ensures forall k: nat | k < |log| :: SeqResult(ops, s0, log + [l], k) == SeqResult(ops, s0, log, k)
  {
    var log' := log + [l];
    assert log'[..|log'| - 1] == log;
    forall k: nat | k < |log|
      ensures SeqResult(ops, s0, log', k) == SeqResult(ops, s0, log, k)
    {
      assert log'[..k] == log[..k];
    }
  }

  // ----- the server

  /** `Taken` is a write the server has taken and that waits for reads to finish. */
  datatype Writer<+L> = Idle | Taken(k: nat, task: L) | Running(k: nat, task: L)

  /** Requests are known by their place in the order in which the server takes them.
      `submitted` lists all requests handed to the server, `log` those it has taken. */
  datatype State<+S, +L, +R> = State(
    shared: S,
    submitted: seq<L>,
    log: seq<L>,
    inflight: map<nat, L>,
    writer: Writer<L>,
    done: map<nat, R>)

  datatype Action<+L> =
    | Submit(task: L)
    | TakeRead
    | ReadStep(k: nat)
    | ReadDone(k: nat)
    | TakeWrite
    | Wait
    | WriteStep
    | WriteDone

  function Init<S, L, R>(s0: S): State<S, L, R> {
    State(s0, [], [], map[], Idle, map[])
  }

  ghost predicate Enabled<S, L, R>(ops: Ops<S, L, R>, s: State<S, L, R>, a: Action<L>) {
    match a
    case Submit(_) => true
    case TakeRead => s.writer == Idle && |s.log| < |s.submitted| && ops.readOnly(s.submitted[|s.log|])
    case ReadStep(k) => k in s.inflight && ops.result(s.inflight[k]) == None
    case ReadDone(k) => k in s.inflight && ops.result(s.inflight[k]) != None
    case TakeWrite => s.writer == Idle && |s.log| < |s.submitted| && !ops.readOnly(s.submitted[|s.log|])
    case Wait => s.writer.Taken? && s.inflight == map[]
    case WriteStep => s.writer.Running? && ops.result(s.writer.task) == None
    case WriteDone => s.writer.Running? && ops.result(s.writer.task) != None
  }

  ghost function Next<S, L, R>(ops: Ops<S, L, R>, s: State<S, L, R>, a: Action<L>): State<S, L, R>
    requires Enabled(ops, s, a)
  {
    match a
    case Submit(l) => s.(submitted := s.submitted + [l])
    case TakeRead =>
      var l := s.submitted[|s.log|];
      s.(log := s.log + [l], inflight := s.inflight[|s.log| := l])
    case ReadStep(k) =>
      s.(inflight := s.inflight[k := ops.step(s.inflight[k], s.shared).0])
    case ReadDone(k) =>
      s.(inflight := s.inflight - {k}, done := s.done[k := ops.result(s.inflight[k]).value])
    case TakeWrite =>
      var l := s.submitted[|s.log|];
      s.(log := s.log + [l], writer := Taken(|s.log|, l))
    case Wait => s.(writer := Running(s.writer.k, s.writer.task))
    case WriteStep =>
      var (l, shared) := ops.step(s.writer.task, s.shared);
      s.(shared := shared, writer := Running(s.writer.k, l))
    case WriteDone =>
      s.(writer := Idle, done := s.done[s.writer.k := ops.result(s.writer.task).value])
  }

  /** What holds after every step. */
  ghost predicate Inv<S(!new), L(!new), R(!new)>(ops: Ops<S, L, R>, s0: S, s: State<S, L, R>)
    requires Valid(ops)
  {
    && s.log <= s.submitted
    // a request taken is in flight, or the writer's, or answered, and only one of these
    && (forall k | k in s.inflight :: k < |s.log| && k !in s.done)
    && (forall k | k in s.done :: k < |s.log|)
    && (forall k: nat | k < |s.log| :: k in s.inflight || k in s.done || (s.writer != Idle && k == s.writer.k))
    && (s.writer != Idle ==> |s.log| == s.writer.k + 1 && s.writer.k !in s.inflight && s.writer.k !in s.done)
    // no read overlaps a write
    && (s.writer.Running? ==> s.inflight == map[])
    // what each will answer is what it would answer on its own turn
    && (forall k | k in s.inflight ::
          ops.readOnly(s.inflight[k]) && Run(ops, s.inflight[k], s.shared).0 == SeqResult(ops, s0, s.log, k))
    && (forall k | k in s.done :: s.done[k] == SeqResult(ops, s0, s.log, k))
    && (match s.writer
        case Idle => s.shared == SeqState(ops, s0, s.log)
        case Taken(k, l) => Run(ops, l, s.shared) == (SeqResult(ops, s0, s.log, k), SeqState(ops, s0, s.log))
        case Running(k, l) => Run(ops, l, s.shared) == (SeqResult(ops, s0, s.log, k), SeqState(ops, s0, s.log)))
  }

  lemma InvTakeRead<S(!new), L(!new), R(!new)>(ops: Ops<S, L, R>, s0: S, s: State<S, L, R>)
    requires Valid(ops) && Inv(ops, s0, s) && Enabled(ops, s, TakeRead)
    ensures Inv(ops, s0, Next(ops, s, TakeRead))
  {
    var l := s.submitted[|s.log|];
    SeqAppend(ops, s0, s.log, l);
    ReadsChangeNothing(ops, l, s.shared);
  }

  lemma InvTakeWrite<S(!new), L(!new), R(!new)>(ops: Ops<S, L, R>, s0: S, s: State<S, L, R>)
    requires Valid(ops) && Inv(ops, s0, s) && Enabled(ops, s, TakeWrite)
    ensures Inv(ops, s0, Next(ops, s, TakeWrite))
  {
    SeqAppend(ops, s0, s.log, s.submitted[|s.log|]);
  }

  lemma InvReader<S(!new), L(!new), R(!new)>(ops: Ops<S, L, R>, s0: S, s: State<S, L, R>, a: Action<L>)
    requires Valid(ops) && Inv(ops, s0, s) && Enabled(ops, s, a) && (a.ReadStep? || a.ReadDone?)
    ensures Inv(ops, s0, Next(ops, s, a))
  {
  }

  lemma InvWriter<S(!new), L(!new), R(!new)>(ops: Ops<S, L, R>, s0: S, s: State<S, L, R>, a: Action<L>)
    requires Valid(ops) && Inv(ops, s0, s) && Enabled(ops, s, a)
              && (a.Submit? || a.Wait? || a.WriteStep? || a.WriteDone?)
    ensures Inv(ops, s0, Next(ops, s, a))
  {
  }

  lemma InvNext<S(!new), L(!new), R(!new)>(ops: Ops<S, L, R>, s0: S, s: State<S, L, R>, a: Action<L>)
    requires Valid(ops) && Inv(ops, s0, s) && Enabled(ops, s, a)
    ensures Inv(ops, s0, Next(ops, s, a))
  {
    match a
    case TakeRead => InvTakeRead(ops, s0, s);
    case TakeWrite => InvTakeWrite(ops, s0, s);
    case ReadStep(_) => InvReader(ops, s0, s, a);
    case ReadDone(_) => InvReader(ops, s0, s, a);
    case _ => InvWriter(ops, s0, s, a);
  }

  /** A run of the server. */
  ghost predicate IsRun<S, L, R>(ops: Ops<S, L, R>, s0: S, states: seq<State<S, L, R>>, actions: seq<Action<L>>) {
    && |states| == |actions| + 1
    && states[0] == Init(s0)
    && forall i | 0 <= i < |actions| :: Enabled(ops, states[i], actions[i])
        && states[i + 1] == Next(ops, states[i], actions[i])
  }

  lemma {:induction false} InvRun<S(!new), L(!new),
        R(!new)>(ops: Ops<S, L, R>, s0: S, states: seq<State<S, L, R>>, actions: seq<Action<L>>, i: nat)
    requires Valid(ops) && IsRun(ops, s0, states, actions) && i < |states|
    ensures Inv(ops, s0, states[i])
  {
    if i > 0 {
      InvRun(ops, s0, states, actions, i - 1);
      InvNext(ops, s0, states[i - 1], actions[i - 1]);
    }
  }

  /** At every point of every run: writes overlap nothing, and all answers given so far are
      those of a one-at-a-time execution in the order of submission. */
  lemma Linearizable<S(!new), L(!new),
        R(!new)>(ops: Ops<S, L, R>, s0: S, states: seq<State<S, L, R>>, actions: seq<Action<L>>, i: nat)
    requires Valid(ops) && IsRun(ops, s0, states, actions) && i < |states|
    ensures states[i].writer.Running? ==> states[i].inflight == map[]
    ensures states[i].log <= states[i].submitted
    ensures forall k | k in states[i].done ::
              k < |states[i].log| && states[i].done[k] == SeqResult(ops, s0, states[i].log, k)
  {
    InvRun(ops, s0, states, actions, i);
  }

  lemma {:induction false} SubmittedGrows<S, L,
        R>(ops: Ops<S, L, R>, s0: S, states: seq<State<S, L, R>>, actions: seq<Action<L>>, i: nat, j: nat)
    requires IsRun(ops, s0, states, actions) && i <= j < |states|
    ensures states[i].submitted <= states[j].submitted
    decreases j
  {
    if i < j {
      SubmittedGrows(ops, s0, states, actions, i, j - 1);
    }
  }

  /** The order of execution respects real time: a request answered before another is
      submitted comes before it. */
  lemma RealTimeOrder<S(!new), L(!new),
        R(!new)>(ops: Ops<S, L, R>, s0: S, states: seq<State<S, L, R>>, actions: seq<Action<L>>, i: nat, j: nat, k: nat)
    requires Valid(ops) && IsRun(ops, s0, states, actions) && i <= j < |actions|
    requires k in states[i].done && actions[j].Submit?
    ensures k < |states[j].submitted| && states[j + 1].submitted[|states[j].submitted|] == actions[j].task
  {
    InvRun(ops, s0, states, actions, i);
    SubmittedGrows(ops, s0, states, actions, i, j);
  }

  /** The server never gets stuck: while a request is unanswered, it can take a step. */
  lemma NeverStuck<S(!new), L(!new), R(!new)>(ops: Ops<S, L, R>, s0: S, s: State<S, L, R>, k: nat)
    requires Valid(ops) && Inv(ops, s0, s) && k < |s.submitted| && k !in s.done
    ensures exists a: Action<L> :: !a.Submit? && Enabled(ops, s, a)
  {
    if j :| j in s.inflight {
      assert Enabled(ops, s, ReadStep(j)) || Enabled(ops, s, ReadDone(j));
    } else {
      assert s.inflight == map[];
      match s.writer
      case Running(_, _) => assert Enabled(ops, s, WriteStep) || Enabled(ops, s, WriteDone);
      case Taken(_, _) => assert Enabled(ops, s, Wait);
      case Idle => assert Enabled(ops, s, TakeRead) || Enabled(ops, s, TakeWrite);
    }
  }

  // ----- every request is answered

  /** The sum of `f` over the tasks numbered below `n`. */
  function Total<L>(f: L -> nat, tasks: map<nat, L>, n: nat): nat {
    if n == 0 then 0 else Total(f, tasks, n - 1) + if n - 1 in tasks then f(tasks[n - 1]) else 0
  }

  lemma {:induction false} TotalUpdate<L>(f: L -> nat, tasks: map<nat, L>, n: nat, k: nat, l: L)
    requires k in tasks && k < n
    ensures Total(f, tasks[k := l], n) == Total(f, tasks, n) - f(tasks[k]) + f(l)
    ensures Total(f, tasks - {k}, n) == Total(f, tasks, n) - f(tasks[k])
  {
    if k < n - 1 {
      TotalUpdate(f, tasks, n - 1, k, l);
    } else {
      TotalSame(f, tasks, tasks[k := l], n - 1);
      TotalSame(f, tasks, tasks - {k}, n - 1);
    }
  }

  lemma {:induction false} TotalSame<L>(f: L -> nat, tasks: map<nat, L>, tasks': map<nat, L>, n: nat)
    requires forall k | 0 <= k < n :: (k in tasks <==> k in tasks') && (k in tasks ==> tasks[k] == tasks'[k])
    ensures Total(f, tasks, n) == Total(f, tasks', n)
  {
    if n > 0 {
      TotalSame(f, tasks, tasks', n - 1);
    }
  }

  /** What is left to do, the first component counting most: requests to take, phases and steps
      of those taken, and answers to give. */
  datatype Work = Work(untaken: nat, phases: nat, steps: nat, open: nat)

  ghost predicate Less(w': Work, w: Work) {
    || w'.untaken < w.untaken
    || (w'.untaken == w.untaken && w'.phases < w.phases)
    || (w'.untaken == w.untaken && w'.phases == w.phases && w'.steps < w.steps)
    || (w'.untaken == w.untaken && w'.phases == w.phases && w'.steps == w.steps && w'.open < w.open)
  }

  ghost function WriterWork<S, L, R>(f: L -> nat, s: State<S, L, R>): nat {
    if s.writer == Idle then 0 else f(s.writer.task)
  }

  ghost function WorkOf<S, L, R>(ops: Ops<S, L, R>, s: State<S, L, R>): Work
    requires |s.log| <= |s.submitted|
  {
    var n := |s.log|;
    Work(|s.submitted| - n,
         Total(ops.phase, s.inflight, n) + WriterWork(ops.phase, s),
         Total(ops.left, s.inflight, n) + WriterWork(ops.left, s),
         |s.inflight| + match s.writer case Idle => 0 case Running(_, _) => 1 case Taken(_, _) => 2)
  }

  lemma ReaderWork<S(!new), L(!new), R(!new)>(ops: Ops<S, L, R>, s0: S, s: State<S, L, R>, a: Action<L>)
    requires Valid(ops) && Inv(ops, s0, s) && Enabled(ops, s, a) && (a.ReadStep? || a.ReadDone?)
    ensures |Next(ops, s, a).log| <= |Next(ops, s, a).submitted|
    ensures Less(WorkOf(ops, Next(ops, s, a)), WorkOf(ops, s))
  {
    hide Run, SeqResult, SeqState;
    var k := a.k;
    var l := ops.step(s.inflight[k], s.shared).0;
    TotalUpdate(ops.phase, s.inflight, |s.log|, k, l);
    TotalUpdate(ops.left, s.inflight, |s.log|, k, l);
    hide Total;
    if a.ReadStep? {
      SameCount(s.inflight, s.inflight[k := l]);
    } else {
      OneFewer(s.inflight, k);
    }
  }

  lemma WriterWorkLess<S(!new), L(!new), R(!new)>(ops: Ops<S, L, R>, s0: S, s: State<S, L, R>, a: Action<L>)
    requires Valid(ops) && Inv(ops, s0, s) && Enabled(ops, s, a)
    requires a.TakeRead? || a.TakeWrite? || a.Wait? || a.WriteStep? || a.WriteDone?
    ensures |Next(ops, s, a).log| <= |Next(ops, s, a).submitted|
    ensures Less(WorkOf(ops, Next(ops, s, a)), WorkOf(ops, s))
  {
    hide Run, SeqResult, SeqState, Total;
  }

  /** Every step of the server, other than being handed a request, leaves less to do. */
  lemma WorkDecreases<S(!new), L(!new), R(!new)>(ops: Ops<S, L, R>, s0: S, s: State<S, L, R>, a: Action<L>)
    requires Valid(ops) && Inv(ops, s0, s) && Enabled(ops, s, a) && !a.Submit?
    ensures |Next(ops, s, a).log| <= |Next(ops, s, a).submitted|
    ensures Less(WorkOf(ops, Next(ops, s, a)), WorkOf(ops, s))
  {
    hide Inv, Less, Enabled, Valid, WorkOf;
    if a.ReadStep? || a.ReadDone? {
      ReaderWork(ops, s0, s, a);
    } else {
      WriterWorkLess(ops, s0, s, a);
    }
  }

  lemma SameCount<L>(tasks: map<nat, L>, tasks': map<nat, L>)
    requires tasks.Keys == tasks'.Keys
    ensures |tasks| == |tasks'|
  {
    assert |tasks| == |tasks.Keys| && |tasks'| == |tasks'.Keys|;
  }

  lemma OneFewer<L>(tasks: map<nat, L>, k: nat)
    requires k in tasks
    ensures |tasks - {k}| == |tasks| - 1
  {
    assert (tasks - {k}).Keys == tasks.Keys - {k};
    assert |tasks| == |tasks.Keys| && |tasks - {k}| == |(tasks - {k}).Keys|;
  }

  /** One tick: the server takes some step, whichever, unless it can take none. */
  ghost predicate Tick<S(!new), L(!new),
        R(!new)>(ops: Ops<S, L, R>, s: State<S, L, R>, a: Action<L>, s': State<S, L, R>) {
    if exists b: Action<L> :: !b.Submit? && Enabled(ops, s, b) then !a.Submit? && Enabled(ops, s, a)
        && s' == Next(ops, s, a)
    else s' == s
  }

  /** However the server goes on from state `states(i)`, if nothing more is submitted, at some
      time all requests have been answered. */
  lemma {:induction false} AllAnswered<S(!new), L(!new),
        R(!new)>(ops: Ops<S, L, R>, s0: S, states: nat -> State<S, L, R>, actions: nat -> Action<L>, i: nat)
      returns (n: nat)
    requires Valid(ops) && Inv(ops, s0, states(i))
    requires forall j: nat | i <= j :: Tick(ops, states(j), actions(j), states(j + 1))
    ensures i <= n && states(n).submitted == states(i).submitted
    ensures forall k: nat | k < |states(n).submitted| :: k in states(n).done
    decreases WorkOf(ops, states(i)).untaken, WorkOf(ops, states(i)).phases, WorkOf(ops, states(i)).steps,
        WorkOf(ops, states(i)).open
  {
    if k: nat :| k < |states(i).submitted| && k !in states(i).done {
      NeverStuck(ops, s0, states(i), k);
      assert Tick(ops, states(i), actions(i), states(i + 1));
      InvNext(ops, s0, states(i), actions(i));
      WorkDecreases(ops, s0, states(i), actions(i));
      n := AllAnswered(ops, s0, states, actions, i + 1);
    } else {
      n := i;
    }
  }
}
