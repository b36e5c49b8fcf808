/**
 * The bounded session pool of `src/internal/smtp/pool.ts`, split into the atomic
 * steps between its `await`s. `State` and `Apply` say what each step does to the
 * whole pool; the class performs the steps on fields, and the lemmas prove what
 * every interleaving of steps keeps.
 */
module Pool {
  import opened Common

  type Session = nat
  type Task = nat

  /** Where a call of `acquire`, and the use of what it returned, stands. */
  datatype Phase =
    | Ready
    | Checking(session: Session)
    | Dialling
    | Waiting
    | Holding(session: Session)
    | Done

  /** Where `close` stands: `current` is being told QUIT, `rest` was taken from `idle` and comes next. */
  datatype Closing =
    | NotCalled
    | Quitting(current: Session, rest: seq<Session>)
    | Finished

  datatype State = State(
    size: nat,
    healthCheck: bool,
    idle: seq<Session>,
    owned: set<Session>,
    waiters: seq<Task>,
    live: int,
    closed: bool,
    tasks: map<Task, Phase>,
    closing: Closing,
    dialled: set<Session>,
    shut: set<Session>,
    lateDials: nat)

  const DEFAULT_POOL_SIZE: nat := 5

  function Init(size: int, healthCheck: bool): State {
    State(if size > 0 then size else DEFAULT_POOL_SIZE, healthCheck,
          [], {}, [], 0, false, map[], NotCalled, {}, {}, 0)
  }

  // ----------------------------------------------------------- the segments

  function SetPhase(st: State, t: Task, p: Phase): State { st.(tasks := st.tasks[t := p]) }

  /** `wake`: every waiter leaves the queue and will run again from the top of its loop. */
  function Woken(st: State): State {
    st.(waiters := [],
        tasks := map t | t in st.tasks :: if t in st.waiters then Ready else st.tasks[t])
  }

  function Shut(st: State, s: Session): State { st.(shut := st.shut + {s}) }

  /** `destroy` */
  function Destroyed(st: State, s: Session): State {
    if s !in st.owned then Shut(st, s)
    else Woken(Shut(st.(owned := st.owned - {s}, live := st.live - 1), s))
  }

  /** `release` */
  function Released(st: State, s: Session): State {
    if s !in st.owned then Shut(st, s)
    else if st.closed then Destroyed(st, s)
    else Woken(st.(idle := st.idle + [s]))
  }

  /** `acquire` from the top of its loop to the next `await`, `return` or `throw`. */
  function Top(st: State, t: Task, aborted: bool): State {
    if aborted then SetPhase(st, t, Done)
    else if st.idle != [] then
      var s := st.idle[|st.idle| - 1];
      SetPhase(st.(idle := st.idle[..|st.idle| - 1]), t, if st.healthCheck then Checking(s) else Holding(s))
    else if st.closed then SetPhase(st, t, Done)
    else if st.live < st.size then SetPhase(st.(live := st.live + 1), t, Dialling)
    else SetPhase(st.(waiters := st.waiters + [t]), t, Waiting)
  }

  /** The catch clause around a dial. */
  function DialFailed(st: State, t: Task): State {
    Woken(SetPhase(st.(live := st.live - 1), t, Done))
  }

  /** The dial of task `t` resolves with `s`. A closed pool gives the slot back, and throws into the catch clause. */
  function DialOk(st: State, t: Task, s: Session): State {
    var st' := st.(dialled := st.dialled + {s});
    if st.closed then
      DialFailed(Woken(Shut(st'.(live := st.live - 1, lateDials := st.lateDials + 1), s)), t)
    else SetPhase(st'.(owned := st.owned + {s}), t, Holding(s))
  }

  /** `close` from its loop head, with `rest` still to be told QUIT. */
  function CloseFrom(st: State, rest: seq<Session>): State {
    if rest == [] then
      st.(closing := Finished, waiters := [],
          tasks := map t | t in st.tasks :: if t in st.waiters then Done else st.tasks[t])
    else
      st.(closing := Quitting(rest[0], rest[1..]), owned := st.owned - {rest[0]}, live := st.live - 1)
  }

  /** One atomic step of some caller, of the network, or of `close`. */
  datatype Event =
    | Start(t: Task, aborted: bool)
    | Resume(t: Task, aborted: bool)
    | NoopOk(t: Task)
    | NoopFailed(t: Task, aborted: bool)
    | DialSettles(t: Task, result: Option<Session>)
    | AbortWait(t: Task)
    | GiveBack(t: Task, succeeded: bool)
    | ForeignRelease(session: Session)
    | CallClose
    | QuitSettles

  predicate Enabled(st: State, e: Event) {
    match e
    case Start(t, _) => t !in st.tasks
    case Resume(t, _) => t in st.tasks && st.tasks[t] == Ready
    case NoopOk(t) => t in st.tasks && st.tasks[t].Checking?
    case NoopFailed(t, _) => t in st.tasks && st.tasks[t].Checking?
    case DialSettles(t, s) =>
      t in st.tasks && st.tasks[t] == Dialling && (s.Some? ==> s.value !in st.dialled && s.value !in st.shut)
    case AbortWait(t) => t in st.tasks && st.tasks[t] == Waiting
    case GiveBack(t, _) => t in st.tasks && st.tasks[t].Holding?
    case ForeignRelease(s) => s !in st.dialled
    case CallClose => true
    case QuitSettles => st.closing.Quitting?
  }

  function Apply(st: State, e: Event): State
    requires Enabled(st, e)
  {
    match e
    case Start(t, aborted) => Top(st, t, aborted)
    case Resume(t, aborted) => Top(st, t, aborted)
    case NoopOk(t) => SetPhase(st, t, Holding(st.tasks[t].session))
    case NoopFailed(t, aborted) => Top(Destroyed(SetPhase(st, t, Ready), st.tasks[t].session), t, aborted)
    case DialSettles(t, s) => if s.Some? then DialOk(st, t, s.value) else DialFailed(st, t)
    case AbortWait(t) => SetPhase(st.(waiters := Without(st.waiters, t)), t, Done)
    case GiveBack(t, succeeded) =>
      var st' := SetPhase(st, t, Done);
      if succeeded then Released(st', st.tasks[t].session) else Destroyed(st', st.tasks[t].session)
    case ForeignRelease(s) => Released(st, s)
    case CallClose => if st.closed then st else CloseFrom(st.(closed := true, idle := []), st.idle)
    case QuitSettles => CloseFrom(Shut(st, st.closing.current), st.closing.rest)
  }

  lemma CloseCalled(st: State)
    ensures Apply(st, CallClose) == if st.closed then st else CloseFrom(st.(closed := true, idle := []), st.idle)
  {
  }

  /** `waiters` with the first occurrence of `t` removed. */
  function Without(waiters: seq<Task>, t: Task): seq<Task> {
    if waiters == [] then []
    else if waiters[0] == t then waiters[1..]
    else [waiters[0]] + Without(waiters[1..], t)
  }

  // ------------------------------------------------------------- invariant

  /** The session a task has in hand. */
  function InHand(p: Phase): set<Session> {
    match p
    case Checking(s) => {s}
    case Holding(s) => {s}
    case _ => {}
  }

  function Pending(c: Closing): seq<Session> { if c.Quitting? then c.rest else [] }

  ghost predicate Distinct<T(!new)>(q: seq<T>) { forall i, j | 0 <= i < j < |q| :: q[i] != q[j] }

  function Elems(q: seq<Session>): set<Session> { set s | s in q }

  /** The tasks hold exactly the sessions `held`, and no two tasks hold the same one. */
  ghost predicate HandsHold(tasks: map<Task, Phase>, held: set<Session>) {
    && (forall t, s | t in tasks && s in InHand(tasks[t]) :: s in held)
    && (forall t, u, s | t in tasks && u in tasks && s in InHand(tasks[t]) && s in InHand(tasks[u]) :: t == u)
    && (forall s | s in held :: exists t :: t in tasks && s in InHand(tasks[t]))
  }

  function Diallers(st: State): set<Task> { set t | t in st.tasks && st.tasks[t] == Dialling }

  /** Capacity: never above the limit, and exactly what is owned or being dialled, less two-for-one late dials. */
  ghost predicate Accounted(st: State) {
    && st.live <= st.size
    && st.live == |st.owned| + |Diallers(st)| - st.lateDials
    && (!st.closed ==> st.lateDials == 0)
  }

  /**
   * Every owned session outside `between` is in exactly one place: idle, waiting
   * for QUIT, or in one task's hand. `between` is non-empty only inside a step.
   */
  ghost predicate Placed(st: State, between: set<Session>) {
    && Distinct(st.idle) && Distinct(Pending(st.closing))
    && Elems(st.idle) !! Elems(Pending(st.closing)) !! between
    && Elems(st.idle) + Elems(Pending(st.closing)) + between <= st.owned
    && HandsHold(st.tasks, st.owned - Elems(st.idle) - Elems(Pending(st.closing)) - between)
  }

  ghost predicate Partitioned(st: State) { Placed(st, {}) }

  /** The queue holds exactly the waiting tasks, and none waits in an open pool that could serve it. */
  ghost predicate Queued(st: State) {
    && Distinct(st.waiters)
    && (forall t :: t in st.waiters <==> t in st.tasks && st.tasks[t] == Waiting)
    && (!st.closed && st.waiters != [] ==> st.idle == [] && st.live == st.size)
  }

  /** Closing: nothing is idle any more, and a finished close left no waiter. */
  ghost predicate ShutDown(st: State) {
    && (st.closed <==> !st.closing.NotCalled?)
    && (st.closed ==> st.idle == [])
    && (st.closing.Finished? ==> st.waiters == [])
  }

  /** No session is lost: each one ever dialled is owned, closed, or being told QUIT. */
  ghost predicate Traced(st: State) {
    && st.owned <= st.dialled
    && st.owned !! st.shut
    && (st.closing.Quitting? ==> st.closing.current in st.dialled && st.closing.current !in st.owned)
    && (forall s | s in st.dialled ::
          s in st.owned || s in st.shut || (st.closing.Quitting? && s == st.closing.current))
  }

  ghost predicate Inv(st: State) {
    Accounted(st) && Partitioned(st) && Queued(st) && ShutDown(st) && Traced(st)
  }

  lemma InitHolds(size: int, healthCheck: bool)
    ensures Inv(Init(size, healthCheck))
  {
    assert Diallers(Init(size, healthCheck)) == {};
  }

  // ------------------------------------------------------- tasks and hands

  lemma DiallersSet(st: State, t: Task, p: Phase)
    ensures Diallers(SetPhase(st, t, p)) == Diallers(st) - {t} + (if p == Dialling then {t} else {})
  {
  }

  lemma HandsUnchanged(tasks: map<Task, Phase>, held: set<Session>, tasks': map<Task, Phase>)
    requires HandsHold(tasks, held) && tasks.Keys <= tasks'.Keys
    requires forall t | t in tasks' :: InHand(tasks'[t]) == if t in tasks then InHand(tasks[t]) else {}
    ensures HandsHold(tasks', held)
  {
    forall s | s in held ensures exists t :: t in tasks' && s in InHand(tasks'[t]) {
      var t :| t in tasks && s in InHand(tasks[t]);
      assert t in tasks'.Keys;
    }
  }

  lemma HandTakes(tasks: map<Task, Phase>, held: set<Session>, t: Task, p: Phase, s: Session)
    requires HandsHold(tasks, held) && s !in held && InHand(p) == {s}
    requires t in tasks ==> InHand(tasks[t]) == {}
    ensures HandsHold(tasks[t := p], held + {s})
  {
    var tasks' := tasks[t := p];
    forall x | x in held + {s} ensures exists u :: u in tasks' && x in InHand(tasks'[u]) {
      if x == s {
        assert t in tasks' && s in InHand(tasks'[t]);
      } else {
        var u :| u in tasks && x in InHand(tasks[u]);
        assert u in tasks' && x in InHand(tasks'[u]);
      }
    }
  }

  lemma HandDrops(tasks: map<Task, Phase>, held: set<Session>, t: Task, p: Phase, s: Session)
    requires HandsHold(tasks, held) && t in tasks && InHand(tasks[t]) == {s} && InHand(p) == {}
    ensures s in held && HandsHold(tasks[t := p], held - {s})
  {
    var tasks' := tasks[t := p];
    assert s in InHand(tasks[t]);
    forall x | x in held - {s} ensures exists u :: u in tasks' && x in InHand(tasks'[u]) {
      var u :| u in tasks && x in InHand(tasks[u]);
      assert u in tasks' && x in InHand(tasks'[u]);
    }
  }

  lemma ElemsAppend(q: seq<Session>, s: Session)
    ensures Elems(q + [s]) == Elems(q) + {s} && (s in Elems(q) <==> s in q)
    ensures Distinct(q + [s]) <==> Distinct(q) && s !in q
  {
    var r := q + [s];
    if Distinct(r) {
      assert forall i | 0 <= i < |q| :: r[i] == q[i];
      assert r[|q|] == s;
    }
  }

  lemma ElemsHead(q: seq<Session>)
    requires q != [] && Distinct(q)
    ensures Elems(q) == {q[0]} + Elems(q[1..]) && q[0] !in Elems(q[1..]) && Distinct(q[1..])
  {
    assert q == [q[0]] + q[1..];
  }

  // ----------------------------------------------------- what a step keeps

  ghost predicate QueueMatches(st: State) {
    && Distinct(st.waiters)
    && (forall t :: t in st.waiters <==> t in st.tasks && st.tasks[t] == Waiting)
  }

  /** Waking everybody keeps the books and leaves no waiter to be stranded. */
  lemma WokenKeeps(st: State)
    requires Accounted(st) && Partitioned(st) && ShutDown(st) && Traced(st) && QueueMatches(st)
    ensures Inv(Woken(st))
  {
    var st' := Woken(st);
    assert Diallers(st') == Diallers(st);
    HandsUnchanged(st.tasks, st.owned - Elems(st.idle) - Elems(Pending(st.closing)) - {}, st'.tasks);
  }

  lemma TopKeeps(st: State, t: Task, aborted: bool)
    requires Inv(st) && (t !in st.tasks || st.tasks[t] == Ready)
    ensures Inv(Top(st, t, aborted))
  {
    TopAccounted(st, t, aborted);
    TopPartitioned(st, t, aborted);
    TopQueued(st, t, aborted);
    TopTraced(st, t, aborted);
    hide Accounted, Partitioned, Queued, ShutDown, Traced, Top;
  }

  lemma TopAccounted(st: State, t: Task, aborted: bool)
    requires Accounted(st) && (t !in st.tasks || st.tasks[t] == Ready)
    ensures Accounted(Top(st, t, aborted))
  {
    hide Diallers;
    TopDiallers(st, t, aborted);
  }

  lemma TopDiallers(st: State, t: Task, aborted: bool)
    requires t !in st.tasks || st.tasks[t] == Ready
    ensures var st' := Top(st, t, aborted);
      t in st'.tasks && t !in Diallers(st)
      && Diallers(st') == Diallers(st) + (if st'.tasks[t] == Dialling then {t} else {})
  {
    var st' := Top(st, t, aborted);
    assert st'.tasks == st.tasks[t := st'.tasks[t]];
    hide Top;
  }

  lemma TopTraced(st: State, t: Task, aborted: bool)
    requires ShutDown(st) && Traced(st)
    ensures ShutDown(Top(st, t, aborted)) && Traced(Top(st, t, aborted))
  {
  }

  lemma TopQueued(st: State, t: Task, aborted: bool)
    requires Queued(st) && Accounted(st) && (t !in st.tasks || st.tasks[t] == Ready)
    ensures Queued(Top(st, t, aborted))
  {
  }

  lemma TopPartitioned(st: State, t: Task, aborted: bool)
    requires Partitioned(st) && (t !in st.tasks || st.tasks[t] == Ready)
    ensures Partitioned(Top(st, t, aborted))
  {
    hide HandsHold, Distinct, Elems;
    var st' := Top(st, t, aborted);
    var held := st.owned - Elems(st.idle) - Elems(Pending(st.closing)) - {};
    if !aborted && st.idle != [] {
      var s := st.idle[|st.idle| - 1];
      assert st.idle == st'.idle + [s];
      ElemsAppend(st'.idle, s);
      assert s in Elems(st.idle) && s !in Elems(st'.idle);
      HandTakes(st.tasks, held, t, st'.tasks[t], s);
      assert held + {s} == st.owned - Elems(st'.idle) - Elems(Pending(st.closing)) - {};
    } else {
      HandsUnchanged(st.tasks, held, st'.tasks);
    }
  }

  /** A task puts its session down; `s` is then owned but in nobody's place. */
  ghost predicate PutDown(st: State, s: Session) {
    Accounted(st) && Placed(st, {s}) && Queued(st) && ShutDown(st) && Traced(st)
  }

  /** A task that neither dials nor waits changes phase; only hands are affected. */
  lemma PhaseKeeps(st: State, t: Task, p: Phase)
    requires Accounted(st) && Queued(st) && ShutDown(st) && Traced(st)
    requires t in st.tasks && st.tasks[t] != Dialling && st.tasks[t] != Waiting && p != Dialling && p != Waiting
    ensures var st' := SetPhase(st, t, p); Accounted(st') && Queued(st') && ShutDown(st') && Traced(st')
  {
    PhaseAccounted(st, t, p);
    hide Accounted;
  }

  lemma PhaseAccounted(st: State, t: Task, p: Phase)
    requires Accounted(st) && t in st.tasks && st.tasks[t] != Dialling && p != Dialling
    ensures Accounted(SetPhase(st, t, p))
  {
    DiallersSet(st, t, p);
    assert t !in Diallers(st);
  }

  lemma PuttingDown(st: State, t: Task, p: Phase)
    requires Inv(st) && t in st.tasks && (st.tasks[t].Checking? || st.tasks[t].Holding?) && (p == Ready || p == Done)
    ensures PutDown(SetPhase(st, t, p), st.tasks[t].session)
  {
    PhaseKeeps(st, t, p);
    HandEmptied(st, t, p);
    hide Accounted, Placed, Partitioned, Queued, ShutDown, Traced;
  }

  lemma HandEmptied(st: State, t: Task, p: Phase)
    requires Partitioned(st) && t in st.tasks && (st.tasks[t].Checking? || st.tasks[t].Holding?) && InHand(p) == {}
    ensures Placed(SetPhase(st, t, p), {st.tasks[t].session})
  {
    hide Elems, Distinct;
    var s := st.tasks[t].session;
    var held := st.owned - Elems(st.idle) - Elems(Pending(st.closing)) - {};
    HandDrops(st.tasks, held, t, p, s);
    hide HandsHold;
    assert held - {s} == st.owned - Elems(st.idle) - Elems(Pending(st.closing)) - {s};
  }

  lemma DestroyedKeeps(st: State, s: Session)
    requires PutDown(st, s)
    ensures Inv(Destroyed(st, s))
  {
    hide HandsHold, Elems, Distinct;
    LessOneAccounted(st, s);
    LessOnePlaced(st, s);
    hide Accounted, Partitioned, Queued, Woken;
    WokenKeeps(Shut(st.(owned := st.owned - {s}, live := st.live - 1), s));
  }

  lemma LessOnePlaced(st: State, s: Session)
    requires Placed(st, {s})
    ensures Partitioned(Shut(st.(owned := st.owned - {s}, live := st.live - 1), s))
  {
    hide HandsHold, Elems, Distinct;
    assert st.owned - {s} - Elems(st.idle) - Elems(Pending(st.closing)) - {}
        == st.owned - Elems(st.idle) - Elems(Pending(st.closing)) - {s};
  }

  lemma LessOneAccounted(st: State, s: Session)
    requires Accounted(st) && s in st.owned
    ensures Accounted(Shut(st.(owned := st.owned - {s}, live := st.live - 1), s))
  {
    assert Diallers(Shut(st.(owned := st.owned - {s}, live := st.live - 1), s)) == Diallers(st);
  }

  lemma ReleasedKeeps(st: State, s: Session)
    requires PutDown(st, s)
    ensures Inv(Released(st, s))
  {
    hide HandsHold, Elems;
    if st.closed {
      DestroyedKeeps(st, s);
    } else {
      var mid := st.(idle := st.idle + [s]);
      assert Diallers(mid) == Diallers(st);
      ElemsAppend(st.idle, s);
      assert mid.owned - Elems(mid.idle) - Elems(Pending(st.closing)) - {}
          == st.owned - Elems(st.idle) - Elems(Pending(st.closing)) - {s};
      WokenKeeps(mid);
    }
  }

  lemma NoopOkKeeps(st: State, t: Task)
    requires Inv(st) && t in st.tasks && st.tasks[t].Checking?
    ensures Inv(SetPhase(st, t, Holding(st.tasks[t].session)))
  {
    var p := Holding(st.tasks[t].session);
    PhaseKeeps(st, t, p);
    hide Accounted, Queued, ShutDown, Traced, Elems, Distinct;
    HandsUnchanged(st.tasks, st.owned - Elems(st.idle) - Elems(Pending(st.closing)) - {}, st.tasks[t := p]);
    hide HandsHold;
  }

  /** A task without a session ends. */
  lemma EndsKeeps(st: State, t: Task)
    requires Partitioned(st) && t in st.tasks && InHand(st.tasks[t]) == {}
    ensures Partitioned(SetPhase(st, t, Done))
  {
    HandsUnchanged(st.tasks, st.owned - Elems(st.idle) - Elems(Pending(st.closing)) - {}, st.tasks[t := Done]);
  }

  /** One dial fewer in flight. */
  lemma DiallersLessOne(st: State, t: Task, p: Phase)
    requires t in st.tasks && st.tasks[t] == Dialling && p != Dialling
    ensures |Diallers(SetPhase(st, t, p))| == |Diallers(st)| - 1
  {
    DiallersSet(st, t, p);
    assert t in Diallers(st);
  }

  lemma DialFailedKeeps(st: State, t: Task)
    requires Inv(st) && t in st.tasks && st.tasks[t] == Dialling
    ensures Inv(DialFailed(st, t))
  {
    hide Accounted, Placed, Partitioned, Queued, QueueMatches, Woken, ShutDown, Traced;
    var mid := SetPhase(st.(live := st.live - 1), t, Done);
    FailedBooks(st, t);
    EndsKeeps(st, t);
    PlacedAlike(SetPhase(st, t, Done), mid);
    QueueWithout(st, t);
    TracedAlike(st, mid);
    WokenKeeps(mid);
  }

  lemma TracedAlike(a: State, b: State)
    requires ShutDown(a) && Traced(a)
    requires a.owned == b.owned && a.shut == b.shut && a.dialled == b.dialled && a.closing == b.closing
    requires a.closed == b.closed && a.idle == b.idle && a.waiters == b.waiters
    ensures ShutDown(b) && Traced(b)
  {
  }

  lemma QueueWithout(st: State, t: Task)
    requires Queued(st) && t in st.tasks && st.tasks[t] != Waiting
    ensures QueueMatches(SetPhase(st.(live := st.live - 1), t, Done))
  {
    hide Distinct;
  }

  lemma PlacedAlike(a: State, b: State)
    requires Partitioned(a)
    requires a.idle == b.idle && a.owned == b.owned && a.tasks == b.tasks && a.closing == b.closing
    ensures Partitioned(b)
  {
    hide HandsHold, Elems, Distinct;
  }

  lemma FailedBooks(st: State, t: Task)
    requires Accounted(st) && t in st.tasks && st.tasks[t] == Dialling
    ensures Accounted(SetPhase(st.(live := st.live - 1), t, Done))
  {
    DiallersLessOne(st, t, Done);
    assert Diallers(SetPhase(st.(live := st.live - 1), t, Done)) == Diallers(SetPhase(st, t, Done));
    hide Diallers;
  }

  lemma DialledKeeps(st: State, t: Task, s: Session)
    requires Inv(st) && !st.closed && Enabled(st, DialSettles(t, Some(s)))
    ensures Inv(DialOk(st, t, s))
  {
    hide Accounted, Partitioned, Queued, Traced, DialOk;
    DialledAccounted(st, t, s);
    DialledPlaced(st, t, s);
    DialledQueued(st, t, s);
    DialledTraced(st, t, s);
  }

  lemma DialledQueued(st: State, t: Task, s: Session)
    requires Queued(st) && !st.closed && Enabled(st, DialSettles(t, Some(s)))
    ensures Queued(DialOk(st, t, s))
  {
  }

  lemma DialledTraced(st: State, t: Task, s: Session)
    requires ShutDown(st) && Traced(st) && !st.closed && Enabled(st, DialSettles(t, Some(s)))
    ensures ShutDown(DialOk(st, t, s)) && Traced(DialOk(st, t, s))
  {
  }

  lemma DialledAccounted(st: State, t: Task, s: Session)
    requires Accounted(st) && Traced(st) && !st.closed && Enabled(st, DialSettles(t, Some(s)))
    ensures Accounted(DialOk(st, t, s))
  {
    DiallersLessOne(st, t, Holding(s));
    assert Diallers(DialOk(st, t, s)) == Diallers(SetPhase(st, t, Holding(s)));
    hide Diallers;
  }

  lemma DialledPlaced(st: State, t: Task, s: Session)
    requires Partitioned(st) && Traced(st) && !st.closed && Enabled(st, DialSettles(t, Some(s)))
    ensures Partitioned(DialOk(st, t, s))
  {
    hide Elems, Distinct, HandsHold;
    var held := st.owned - Elems(st.idle) - Elems(Pending(st.closing)) - {};
    HandTakes(st.tasks, held, t, Holding(s), s);
    assert held + {s} == st.owned + {s} - Elems(st.idle) - Elems(Pending(st.closing)) - {};
  }

  /** After `close` a dial that succeeds gives its slot back twice. */
  lemma LateDialKeeps(st: State, t: Task, s: Session)
    requires Inv(st) && st.closed && Enabled(st, DialSettles(t, Some(s)))
    ensures Inv(DialOk(st, t, s))
  {
    hide HandsHold, Elems, Distinct;
    var mid := SetPhase(st, t, Done).(live := st.live - 2, lateDials := st.lateDials + 1,
                                      dialled := st.dialled + {s}, shut := st.shut + {s});
    DiallersLessOne(st, t, Done);
    assert Diallers(mid) == Diallers(SetPhase(st, t, Done));
    hide Diallers;
    EndsKeeps(st, t);
    WokenKeeps(mid);
    TwiceWoken(st, t, s, mid);
  }

  lemma TwiceWoken(st: State, t: Task, s: Session, mid: State)
    requires st.closed && t in st.tasks && t !in st.waiters
    requires mid == SetPhase(st, t, Done).(live := st.live - 2, lateDials := st.lateDials + 1,
                                           dialled := st.dialled + {s}, shut := st.shut + {s})
    ensures DialOk(st, t, s) == Woken(mid)
  {
    var out := DialOk(st, t, s);
    assert out.tasks.Keys == Woken(mid).tasks.Keys;
    assert forall u | u in out.tasks :: out.tasks[u] == Woken(mid).tasks[u];
    assert out.tasks == Woken(mid).tasks;
  }

  lemma {:induction false} WithoutElements(q: seq<Task>, t: Task)
    requires Distinct(q)
    ensures Distinct(Without(q, t))
    ensures forall u :: u in Without(q, t) <==> u in q && u != t
  {
    if q == [] {
    } else {
      assert q == [q[0]] + q[1..];
      if q[0] != t {
        WithoutElements(q[1..], t);
        var rest := Without(q[1..], t);
        forall i, j | 0 <= i < j < |rest| + 1 ensures ([q[0]] + rest)[i] != ([q[0]] + rest)[j] {
          assert rest[j - 1] in rest;
        }
      }
    }
  }

  lemma AbortKeeps(st: State, t: Task)
    requires Inv(st) && t in st.tasks && st.tasks[t] == Waiting
    ensures Inv(SetPhase(st.(waiters := Without(st.waiters, t)), t, Done))
  {
    var st' := SetPhase(st.(waiters := Without(st.waiters, t)), t, Done);
    PhaseAccounted(st, t, Done);
    EndsKeeps(st, t);
    PlacedAlike(SetPhase(st, t, Done), st');
    AccountedAlike(SetPhase(st, t, Done), st');
    hide Accounted, Placed, Partitioned, Without;
    WithoutElements(st.waiters, t);
    hide Distinct;
  }

  lemma AccountedAlike(a: State, b: State)
    requires Accounted(a)
    requires a.owned == b.owned && a.tasks == b.tasks && a.live == b.live && a.size == b.size
    requires a.closed == b.closed && a.lateDials == b.lateDials
    ensures Accounted(b)
  {
    assert Diallers(a) == Diallers(b);
  }

  /** `close` between two sessions: nothing idle, `rest` still owned and in nobody's hand. */
  ghost predicate MidClose(st: State, rest: seq<Session>) {
    && Accounted(st) && QueueMatches(st)
    && st.closed && st.idle == []
    && Distinct(rest) && Elems(rest) <= st.owned
    && HandsHold(st.tasks, st.owned - Elems(rest))
    && st.owned <= st.dialled && st.owned !! st.shut && st.dialled <= st.owned + st.shut
  }

  lemma CloseFromKeeps(st: State, rest: seq<Session>)
    requires MidClose(st, rest)
    ensures Inv(CloseFrom(st, rest))
  {
    if rest == [] { CloseEnds(st); } else { CloseNext(st, rest); }
  }

  lemma CloseEnds(st: State)
    requires MidClose(st, [])
    ensures Inv(CloseFrom(st, []))
  {
    EndedBooks(st);
    EndedHands(st);
    hide HandsHold, Diallers, Elems, Accounted, Distinct, Partitioned, Placed;
  }

  lemma EndedBooks(st: State)
    requires Accounted(st) && QueueMatches(st) && st.closed
    ensures Accounted(CloseFrom(st, []))
  {
    assert Diallers(CloseFrom(st, [])) == Diallers(st);
    hide Diallers;
  }

  lemma EndedHands(st: State)
    requires QueueMatches(st) && st.idle == [] && HandsHold(st.tasks, st.owned - Elems([]))
    ensures Partitioned(CloseFrom(st, []))
  {
    assert Elems([]) == {};
    hide Elems;
    assert st.owned - {} == st.owned && st.owned - {} - {} - {} == st.owned;
    HandsUnchanged(st.tasks, st.owned, CloseFrom(st, []).tasks);
    hide HandsHold;
  }

  lemma CloseNext(st: State, rest: seq<Session>)
    requires MidClose(st, rest) && rest != []
    ensures Inv(CloseFrom(st, rest))
  {
    ElemsHead(rest);
    assert rest[0] in Elems(rest);
    NextBooks(st, rest);
    NextHands(st, rest);
    hide HandsHold, Diallers, Elems, Accounted, Distinct, Partitioned, Placed;
  }

  lemma NextBooks(st: State, rest: seq<Session>)
    requires Accounted(st) && st.closed && rest != [] && rest[0] in st.owned
    ensures Accounted(CloseFrom(st, rest))
  {
    assert Diallers(CloseFrom(st, rest)) == Diallers(st);
    hide Diallers;
  }

  lemma NextHands(st: State, rest: seq<Session>)
    requires rest != [] && Distinct(rest) && Elems(rest) <= st.owned && st.idle == []
    requires HandsHold(st.tasks, st.owned - Elems(rest))
    ensures Partitioned(CloseFrom(st, rest))
  {
    ElemsHead(rest);
    assert Elems([]) == {};
    hide Elems, HandsHold, Distinct;
    assert st.owned - {rest[0]} - {} - Elems(rest[1..]) - {} == st.owned - Elems(rest);
  }

  lemma CallCloseKeeps(st: State)
    requires Inv(st) && !st.closed
    ensures Inv(Apply(st, CallClose))
  {
    hide HandsHold, Distinct;
    var mid := st.(closed := true, idle := []);
    assert Diallers(mid) == Diallers(st);
    assert Elems([]) == {};
    assert st.owned - Elems(st.idle) - Elems([]) - {} == st.owned - Elems(st.idle);
    hide Elems, Diallers;
    CloseFromKeeps(mid, st.idle);
  }

  lemma QuitSettlesKeeps(st: State)
    requires Inv(st) && st.closing.Quitting?
    ensures Inv(Apply(st, QuitSettles))
  {
    hide HandsHold, Distinct;
    var mid := Shut(st, st.closing.current);
    assert Diallers(mid) == Diallers(st);
    assert Elems([]) == {};
    assert st.owned - Elems([]) - Elems(st.closing.rest) - {} == st.owned - Elems(st.closing.rest);
    hide Elems, Diallers;
    CloseFromKeeps(mid, st.closing.rest);
  }

  /** A session the pool never dialled is closed and never admitted. */
  lemma ForeignKeeps(st: State, s: Session)
    requires Inv(st) && s !in st.dialled
    ensures Inv(Released(st, s)) && Released(st, s) == Shut(st, s)
  {
    assert Diallers(Shut(st, s)) == Diallers(st);
    hide HandsHold, Diallers, Elems, Distinct;
  }

  // --------------------------------------------------------------- theorems

  /** Every atomic step keeps the invariant. */
  lemma StepKeeps(st: State, e: Event)
    requires Inv(st) && Enabled(st, e)
    ensures Inv(Apply(st, e))
  {
    hide Inv, Top, Destroyed, Released, DialOk, DialFailed, CloseFrom, Without;
    match e
    case Start(t, aborted) => TopKeeps(st, t, aborted);
    case Resume(t, aborted) => TopKeeps(st, t, aborted);
    case NoopOk(t) => NoopOkKeeps(st, t);
    case NoopFailed(t, aborted) => NoopFailedKeeps(st, t, aborted);
    case DialSettles(t, r) => DialSettlesKeeps(st, t, r);
    case AbortWait(t) => AbortKeeps(st, t);
    case GiveBack(t, succeeded) =>
      PuttingDown(st, t, Done);
      if succeeded { ReleasedKeeps(SetPhase(st, t, Done), st.tasks[t].session); }
      else { DestroyedKeeps(SetPhase(st, t, Done), st.tasks[t].session); }
    case ForeignRelease(s) => ForeignKeeps(st, s);
    case CallClose => if !st.closed { CallCloseKeeps(st); }
    case QuitSettles => QuitSettlesKeeps(st);
  }

  lemma DialSettlesKeeps(st: State, t: Task, r: Option<Session>)
    requires Inv(st) && Enabled(st, DialSettles(t, r))
    ensures Inv(Apply(st, DialSettles(t, r)))
  {
    hide Inv, DialOk, DialFailed;
    if r.None? { DialFailedKeeps(st, t); }
    else if st.closed { LateDialKeeps(st, t, r.value); }
    else { DialledKeeps(st, t, r.value); }
  }

  lemma NoopFailedKeeps(st: State, t: Task, aborted: bool)
    requires Inv(st) && t in st.tasks && st.tasks[t].Checking?
    ensures Inv(Apply(st, NoopFailed(t, aborted)))
  {
    hide Inv, Top;
    var s := st.tasks[t].session;
    PuttingDown(st, t, Ready);
    DestroyedKeeps(SetPhase(st, t, Ready), s);
    TopKeeps(Destroyed(SetPhase(st, t, Ready), s), t, aborted);
  }

  /** The events can happen in this order from `st`. */
  predicate Possible(st: State, events: seq<Event>)
    decreases |events|
  {
    events == [] || (Enabled(st, events[0]) && Possible(Apply(st, events[0]), events[1..]))
  }

  function Run(st: State, events: seq<Event>): State
    requires Possible(st, events)
    decreases |events|
  {
    if events == [] then st else Run(Apply(st, events[0]), events[1..])
  }

  lemma {:induction false} RunKeeps(st: State, events: seq<Event>)
    requires Inv(st) && Possible(st, events)
    ensures Inv(Run(st, events))
    decreases |events|
  {
    hide Inv, Apply, Enabled;
    if events == [] {
    } else {
      StepKeeps(st, events[0]);
      RunKeeps(Apply(st, events[0]), events[1..]);
    }
  }

  function NewPool(size: int, healthCheck: bool, events: seq<Event>): State
    requires Possible(Init(size, healthCheck), events)
  {
    Run(Init(size, healthCheck), events)
  }

  lemma Reachable(size: int, healthCheck: bool, events: seq<Event>)
    requires Possible(Init(size, healthCheck), events)
    ensures Inv(NewPool(size, healthCheck, events))
  {
    InitHolds(size, healthCheck);
    RunKeeps(Init(size, healthCheck), events);
  }

  /** In every reachable state the pool is within its limit and its books are exact. */
  lemma CapacityIsExact(size: int, healthCheck: bool, events: seq<Event>)
    requires Possible(Init(size, healthCheck), events)
    ensures var st := NewPool(size, healthCheck, events);
      && st.live <= st.size
      && (!st.closed ==> st.live == |st.owned| + |Diallers(st)|)
      && st.live == |st.owned| + |Diallers(st)| - LateDials(Init(size, healthCheck), events)
  {
    hide Inv, Diallers;
    Reachable(size, healthCheck, events);
    LateDialsCounted(Init(size, healthCheck), events);
    InvParts(NewPool(size, healthCheck, events));
  }

  lemma InvParts(st: State)
    requires Inv(st)
    ensures Accounted(st) && Partitioned(st) && Queued(st) && ShutDown(st) && Traced(st)
  {
  }

  /** The dials of a run that succeeded after the pool was closed. */
  function LateDials(st: State, events: seq<Event>): nat
    requires Possible(st, events)
    decreases |events|
  {
    if events == [] then 0
    else
      (if st.closed && events[0].DialSettles? && events[0].result.Some? then 1 else 0)
      + LateDials(Apply(st, events[0]), events[1..])
  }

  lemma {:induction false} LateDialsCounted(st: State, events: seq<Event>)
    requires Possible(st, events)
    ensures Run(st, events).lateDials == st.lateDials + LateDials(st, events)
    decreases |events|
  {
    if events == [] {
    } else {
      LateDialsStep(st, events[0]);
      hide Apply, Enabled;
      LateDialsCounted(Apply(st, events[0]), events[1..]);
    }
  }

  lemma LateDialsStep(st: State, e: Event)
    requires Enabled(st, e)
    ensures Apply(st, e).lateDials
         == st.lateDials + (if st.closed && e.DialSettles? && e.result.Some? then 1 else 0)
  {
  }

  /**
   * The drift is real: one caller starts a dial, the pool is closed, the dial
   * succeeds. Its slot is given back twice, and the pool counts fewer than none.
   */
  lemma LateDialDrifts(size: int, healthCheck: bool, t: Task, s: Session) returns (events: seq<Event>)
    ensures events == [Start(t, false), CallClose, DialSettles(t, Some(s))]
    ensures Possible(Init(size, healthCheck), events)
    ensures var st := NewPool(size, healthCheck, events); st.live == -1 && st.owned == {} && Diallers(st) == {}
  {
    events := [Start(t, false), CallClose, DialSettles(t, Some(s))];
    var a := Init(size, healthCheck);
    var b := Apply(a, events[0]);
    var c := Apply(b, events[1]);
    var d := Apply(c, events[2]);
    assert b.tasks == map[t := Dialling] && b.live == 1;
    assert c.tasks == map[t := Dialling] && c.closed && c.live == 1;
    assert d.live == -1 && d.tasks == map[t := Done];
    hide Apply, Enabled;
    assert events[1..] == [CallClose, DialSettles(t, Some(s))];
    assert events[1..][1..] == [DialSettles(t, Some(s))] && events[1..][1..][1..] == [];
    assert Possible(c, [DialSettles(t, Some(s))]) && Run(c, [DialSettles(t, Some(s))]) == d;
    assert Possible(b, events[1..]) && Run(b, events[1..]) == d;
  }

  /** No session is ever in two places: not with two tasks, nor with a task and in the idle list. */
  lemma OwnershipIsExclusive(size: int, healthCheck: bool, events: seq<Event>, t: Task, u: Task, s: Session)
    requires Possible(Init(size, healthCheck), events)
    requires t in NewPool(size, healthCheck, events).tasks && u in NewPool(size, healthCheck, events).tasks
    requires var st := NewPool(size, healthCheck, events); s in InHand(st.tasks[t]) && s in InHand(st.tasks[u])
    ensures t == u
    ensures var st := NewPool(size, healthCheck, events);
      s in st.owned && s !in st.idle && s !in st.shut && st.tasks[t] != Dialling
  {
    Reachable(size, healthCheck, events);
    var st := NewPool(size, healthCheck, events);
    hide NewPool, Possible;
    InvParts(st);
    assert s in st.owned - Elems(st.idle) - Elems(Pending(st.closing)) - {};
    assert s in st.idle ==> s in Elems(st.idle);
  }

  /** No lost wake-up: whoever waits for an open pool waits because nothing is idle and the limit is reached. */
  lemma NoLostWakeUp(size: int, healthCheck: bool, events: seq<Event>)
    requires Possible(Init(size, healthCheck), events)
    ensures var st := NewPool(size, healthCheck, events);
      !st.closed && st.waiters != [] ==> st.idle == [] && st.live == st.size
    ensures var st := NewPool(size, healthCheck, events);
      forall t :: t in st.waiters <==> t in st.tasks && st.tasks[t] == Waiting
  {
    hide Inv;
    Reachable(size, healthCheck, events);
    InvParts(NewPool(size, healthCheck, events));
  }

  // ------------------------------------------- what becomes of a session

  /** The session is out of the pool's reach: closed, not idle, and in nobody's hands. */
  ghost predicate Gone(st: State, s: Session) {
    && s in st.shut && s !in st.owned && s !in st.idle
    && forall t | t in st.tasks :: s !in InHand(st.tasks[t])
  }

  /** Whoever holds a session holds an open one of the pool. */
  lemma HeldIsOwned(st: State, t: Task, s: Session)
    requires Inv(st) && t in st.tasks
    ensures s in InHand(st.tasks[t]) ==> s in st.owned && s !in st.shut && s !in st.idle && t !in st.waiters
  {
    InvParts(st);
    hide Inv, Accounted, Distinct;
    if s in InHand(st.tasks[t]) {
      assert s in st.owned - Elems(st.idle) - Elems(Pending(st.closing)) - {};
      assert s in st.idle ==> s in Elems(st.idle);
    }
  }

  lemma ShutIsGone(st: State, s: Session)
    requires Inv(st) && s in st.shut
    ensures Gone(st, s)
  {
    hide HandsHold, Distinct, Accounted, Queued, ShutDown;
    assert s in st.idle ==> s in Elems(st.idle);
    forall t | t in st.tasks ensures s !in InHand(st.tasks[t]) { HeldIsOwned(st, t, s); }
  }

  /** A session that was closed stays closed. */
  lemma ShutGrows(st: State, e: Event)
    requires Enabled(st, e)
    ensures st.shut <= Apply(st, e).shut
  {
    hide Without;
  }

  lemma {:induction false} ShutForGood(st: State, events: seq<Event>, s: Session)
    requires Inv(st) && Possible(st, events) && s in st.shut
    ensures Gone(Run(st, events), s)
    decreases |events|
  {
    hide Inv, Apply, Enabled, Gone;
    if events == [] {
      ShutIsGone(st, s);
    } else {
      StepKeeps(st, events[0]);
      ShutGrows(st, events[0]);
      ShutForGood(Apply(st, events[0]), events[1..], s);
    }
  }

  /**
   * What the catch clause is for: after a failed transaction the session is
   * closed, and whatever happens later nobody gets it again. After `close` the
   * same holds of a successful one.
   */
  lemma FailedSessionIsGone(st: State, t: Task, s: Session, succeeded: bool, later: seq<Event>)
    requires Inv(st) && t in st.tasks && st.tasks[t] == Holding(s) && (!succeeded || st.closed)
    requires Possible(st, [GiveBack(t, succeeded)] + later)
    ensures Gone(Run(st, [GiveBack(t, succeeded)] + later), s)
  {
    hide Inv, Gone;
    var e := GiveBack(t, succeeded);
    assert ([e] + later)[1..] == later;
    GiveBackMeans(st, t, s, succeeded);
    StepKeeps(st, e);
    hide Apply, Enabled;
    ShutForGood(Apply(st, e), later, s);
  }

  /** What giving a session back does to the fields. */
  lemma GiveBackMeans(st: State, t: Task, s: Session, succeeded: bool)
    requires Inv(st) && t in st.tasks && st.tasks[t] == Holding(s)
    ensures var after := Apply(st, GiveBack(t, succeeded));
      && t in after.tasks && after.tasks[t] == Done && after.closed == st.closed
      && (succeeded && !st.closed ==> after.idle == st.idle + [s] && after.owned == st.owned && after.shut == st.shut)
      && (!succeeded || st.closed ==> after.idle == st.idle && after.owned == st.owned - {s} && after.shut == st.shut + {s})
  {
    HeldIsOwned(st, t, s);
    hide Inv;
  }

  /** After a successful transaction an open pool keeps the session, ready for the next caller before any other one. */
  lemma SuccessfulSessionIsKept(st: State, t: Task, s: Session, u: Task)
    requires Inv(st) && t in st.tasks && st.tasks[t] == Holding(s) && !st.closed && u !in st.tasks
    ensures var after := Apply(st, GiveBack(t, true));
      && after.tasks[t] == Done && after.idle == st.idle + [s] && s in after.owned && s !in after.shut
      && Apply(after, Start(u, false)).tasks[u] == if st.healthCheck then Checking(s) else Holding(s)
  {
    HeldIsOwned(st, t, s);
    GiveBackMeans(st, t, s, true);
    hide Inv;
    assert u !in Apply(st, GiveBack(t, true)).tasks;
  }

  /** A health check that passes hands the same session out, unclosed; one that fails ends the session for good. */
  lemma HealthCheckDecides(st: State, t: Task, s: Session, aborted: bool, later: seq<Event>)
    requires Inv(st) && t in st.tasks && st.tasks[t] == Checking(s)
    ensures var passed := Apply(st, NoopOk(t));
      passed.tasks[t] == Holding(s) && s in passed.owned && s !in passed.shut
    ensures Possible(st, [NoopFailed(t, aborted)] + later) ==> Gone(Run(st, [NoopFailed(t, aborted)] + later), s)
  {
    HeldIsOwned(st, t, s);
    hide Inv, Gone, Possible, Run;
    if Possible(st, [NoopFailed(t, aborted)] + later) { FailedCheckIsGone(st, t, s, aborted, later); }
  }

  lemma FailedCheckIsGone(st: State, t: Task, s: Session, aborted: bool, later: seq<Event>)
    requires Inv(st) && t in st.tasks && st.tasks[t] == Checking(s)
    requires Possible(st, [NoopFailed(t, aborted)] + later)
    ensures Gone(Run(st, [NoopFailed(t, aborted)] + later), s)
  {
    hide Inv, Gone;
    var e := NoopFailed(t, aborted);
    assert ([e] + later)[1..] == later;
    StepKeeps(st, e);
    FailedCheckShuts(st, t, s, aborted);
    hide Apply, Enabled;
    ShutForGood(Apply(st, e), later, s);
  }

  lemma FailedCheckShuts(st: State, t: Task, s: Session, aborted: bool)
    requires t in st.tasks && st.tasks[t] == Checking(s)
    ensures s in Apply(st, NoopFailed(t, aborted)).shut
  {
  }

  /** A dial that succeeds in time gives the caller its session; one that comes too late closes it for good. */
  lemma DialDecides(st: State, t: Task, s: Session)
    requires Inv(st) && Enabled(st, DialSettles(t, Some(s)))
    ensures var after := Apply(st, DialSettles(t, Some(s)));
      && (!st.closed ==> after.tasks[t] == Holding(s) && s in after.owned && s !in after.shut && after.live == st.live)
      && (st.closed ==> after.tasks[t] == Done && Gone(after, s))
  {
    StepKeeps(st, DialSettles(t, Some(s)));
    var after := Apply(st, DialSettles(t, Some(s)));
    hide Inv, Gone;
    if st.closed { ShutIsGone(after, s); }
  }

  /** A finished `close` leaves no waiter; once every task is done nothing is owned and every dialled session is closed. */
  lemma CloseLeavesNothing(size: int, healthCheck: bool, events: seq<Event>)
    requires Possible(Init(size, healthCheck), events)
    requires NewPool(size, healthCheck, events).closing.Finished?
    ensures var st := NewPool(size, healthCheck, events);
      && st.waiters == [] && st.idle == []
      && ((forall t | t in st.tasks :: st.tasks[t] == Done) ==> st.owned == {} && st.dialled <= st.shut)
  {
    Reachable(size, healthCheck, events);
    var st := NewPool(size, healthCheck, events);
    hide NewPool, Possible;
    InvParts(st);
    hide Inv, Placed;
    if forall t | t in st.tasks :: st.tasks[t] == Done {
      NothingOwned(st);
    }
  }

  lemma NothingOwned(st: State)
    requires Partitioned(st) && st.closing.Finished? && st.idle == []
    requires forall t | t in st.tasks :: st.tasks[t] == Done
    ensures st.owned == {}
  {
    assert Elems([]) == {};
    hide Elems;
    assert st.owned - {} - {} - {} == st.owned;
  }

  /** Once closed, a pool stays closed and its queue only shrinks. */
  lemma ClosedForGood(st: State, e: Event)
    requires Inv(st) && st.closed && Enabled(st, e)
    ensures Apply(st, e).closed && forall t | t in Apply(st, e).waiters :: t in st.waiters
  {
    if e.AbortWait? { WithoutElements(st.waiters, e.t); }
    hide HandsHold, Accounted, Placed;
  }

  /**
   * Exclusive ownership needs every session to be given back once: releasing an
   * idle session again lets two callers acquire the same one.
   */
  lemma SecondReleaseShares(st: State, s: Session, t: Task, u: Task)
    requires Inv(st) && !st.closed && !st.healthCheck
    requires s in st.idle && st.idle[|st.idle| - 1] == s
    requires t !in st.tasks && u !in st.tasks && t != u
    ensures var after := Top(Top(Released(st, s), t, false), u, false);
      after.tasks[t] == Holding(s) && after.tasks[u] == Holding(s)
  {
    assert s in Elems(st.idle);
  }

  // ------------------------------------------------------------------ class

  /**
   * The pool's fields, and ghost fields for what lies outside it: the callers,
   * the running `close`, and the sessions themselves. Each method is one atomic
   * step of the source and is proved to do exactly what `Apply` says.
   */
  class SmtpPool {
    const size: nat
    const healthCheck: bool
    var idle: seq<Session>
    var owned: set<Session>
    var waiters: seq<Task>
    var live: int
    var closed: bool

    ghost var tasks: map<Task, Phase>
    ghost var closing: Closing
    ghost var dialled: set<Session>
    ghost var shut: set<Session>
    ghost var lateDials: nat

    ghost function Model(): State
      reads this
    {
      State(size, healthCheck, idle, owned, waiters, live, closed, tasks, closing, dialled, shut, lateDials)
    }

    constructor (size: int, healthCheck: bool)
      ensures Model() == Init(size, healthCheck) && Inv(Model())
    {
      this.size := if size > 0 then size else DEFAULT_POOL_SIZE;
      this.healthCheck := healthCheck;
      idle, owned, waiters, live, closed := [], {}, [], 0, false;
      tasks, closing, dialled, shut, lateDials := map[], NotCalled, {}, {}, 0;
      new;
      InitHolds(size, healthCheck);
    }

    /** Resolves every waiter: each will run again from the top of its loop. */
    method Wake()
      requires forall t | t in waiters :: t in tasks
      modifies this`waiters, this`tasks
      ensures Model() == Woken(old(Model())) && waiters == []
      ensures forall t | t in old(waiters) :: t in tasks && tasks[t] == Ready
    {
      var woken := waiters;
      waiters := [];
      for k := 0 to |woken|
        invariant Model() == old(Model()).(waiters := [], tasks := tasks)
        invariant tasks == map t | t in old(tasks) :: if t in woken[..k] then Ready else old(tasks)[t]
      {
        assert woken[..k + 1] == woken[..k] + [woken[k]];
        assert woken[k] in old(waiters);
        tasks := tasks[woken[k] := Ready];
      }
      assert woken[..|woken|] == woken;
    }

    /**
     * `destroy`: the session is closed and out of the books, its slot is free, and
     * every waiter may try for it. A session in no hand keeps the invariant.
     */
    method Destroy(s: Session)
      requires forall t | t in waiters :: t in tasks
      modifies this`shut, this`owned, this`live, this`waiters, this`tasks
      ensures Model() == Destroyed(old(Model()), s)
      ensures s in shut && owned == old(owned) - {s}
      ensures live == old(live) - |{s} * old(owned)|
      ensures s in old(owned) ==> waiters == [] && forall t | t in old(waiters) :: t in tasks && tasks[t] == Ready
      ensures old(PutDown(Model(), s)) ==> Inv(Model())
    {
      if PutDown(Model(), s) { DestroyedKeeps(Model(), s); }
      hide PutDown, Inv;
      assert {s} * owned == if s in owned then {s} else {};
      shut := shut + {s};
      if s !in owned { return; }
      owned := owned - {s};
      live := live - 1;
      Wake();
    }

    /**
     * `release`: an open pool takes its own session back and wakes every waiter; a
     * foreign session, and any session after `close`, is closed instead.
     */
    method Release(s: Session)
      requires forall t | t in waiters :: t in tasks
      modifies this`idle, this`shut, this`owned, this`live, this`waiters, this`tasks
      ensures Model() == Released(old(Model()), s)
      ensures idle == if s in old(owned) && !closed then old(idle) + [s] else old(idle)
      ensures owned == if closed then old(owned) - {s} else old(owned)
      ensures s in shut || (s in owned && !closed)
      ensures s in old(owned) ==> waiters == [] && forall t | t in old(waiters) :: t in tasks && tasks[t] == Ready
      ensures old(PutDown(Model(), s)) ==> Inv(Model())
    {
      if PutDown(Model(), s) { ReleasedKeeps(Model(), s); }
      hide PutDown, Inv;
      if s !in owned { shut := shut + {s}; return; }
      if closed { Destroy(s); return; }
      idle := idle + [s];
      Wake();
    }

    /**
     * `acquire` from the top of its loop to the next `await`, `return` or `throw`:
     * a session that was idle, a slot below the limit, a place in the queue when
     * there is neither, or the end.
     */
    method Acquire(t: Task, aborted: bool) returns (next: Phase)
      modifies this`idle, this`live, this`waiters, this`tasks
      ensures Model() == Top(old(Model()), t, aborted) && t in tasks && next == tasks[t]
      ensures InHand(next) != {} ==> exists s :: InHand(next) == {s} && old(idle) == idle + [s]
      ensures next == Dialling ==> old(idle) == [] && old(live) < size && live == old(live) + 1
      ensures next == Waiting ==> old(idle) == [] && old(live) >= size && waiters == old(waiters) + [t]
      ensures next == Done <==> aborted || (old(idle) == [] && closed)
      ensures old(Inv(Model())) && (t !in old(tasks) || old(tasks[t]) == Ready) ==> Inv(Model())
    {
      if Inv(Model()) && (t !in tasks || tasks[t] == Ready) { TopKeeps(Model(), t, aborted); }
      hide Inv;
      if aborted {
        next := Done;
      } else if idle != [] {
        var session := idle[|idle| - 1];
        idle := idle[..|idle| - 1];
        next := if healthCheck then Checking(session) else Holding(session);
      } else if closed {
        next := Done;
      } else if live < size {
        live := live + 1;
        next := Dialling;
      } else {
        waiters := waiters + [t];
        next := Waiting;
      }
      tasks := tasks[t := next];
    }

    /** The continuation of `acquire` after its NOOP failed. */
    method NoopFailure(t: Task, session: Session, aborted: bool) returns (next: Phase)
      requires Inv(Model()) && t in tasks && tasks[t] == Checking(session)
      modifies this
      ensures Model() == Apply(old(Model()), NoopFailed(t, aborted)) && Inv(Model())
      ensures t in tasks && next == tasks[t]
      ensures session in shut && session !in owned && session !in idle
    {
      hide Inv, Top, Destroyed, Released, CloseFrom, Without, DialOk, DialFailed;
      StepKeeps(Model(), NoopFailed(t, aborted));
      FailedCheckShuts(Model(), t, session, aborted);
      ShutIsGone(Apply(Model(), NoopFailed(t, aborted)), session);
      WaitersAreTasks(Model());
      tasks := tasks[t := Ready];
      Destroy(session);
      next := Acquire(t, aborted);
    }

    /** The catch clause around the dial: the slot is free again, and every waiter may try for it. */
    method GiveSlotBack(t: Task)
      requires forall u | u in waiters :: u in tasks
      modifies this`live, this`waiters, this`tasks
      ensures Model() == DialFailed(old(Model()), t)
      ensures live == old(live) - 1 && waiters == []
      ensures forall u | u in old(waiters) :: u in tasks && tasks[u] == Ready
      ensures old(Inv(Model())) && t in old(tasks) && old(tasks[t]) == Dialling ==> Inv(Model()) && tasks[t] == Done
    {
      if Inv(Model()) && t in tasks && tasks[t] == Dialling { DialFailedKeeps(Model(), t); }
      hide Inv;
      live := live - 1;
      tasks := tasks[t := Done];
      Wake();
    }

    /** A dial that succeeded after `close`: its branch and the catch clause both give the slot back. */
    method DropLateSession(t: Task, session: Session)
      requires forall u | u in waiters :: u in tasks
      modifies this`live, this`shut, this`lateDials, this`waiters, this`tasks
      ensures var st := old(Model());
        Model() == DialFailed(Woken(Shut(st.(live := st.live - 1, lateDials := st.lateDials + 1), session)), t)
      ensures live == old(live) - 2 && lateDials == old(lateDials) + 1 && session in shut && waiters == []
    {
      hide Woken, DialFailed;
      live := live - 1;
      shut := shut + {session};
      lateDials := lateDials + 1;
      Wake();
      GiveSlotBack(t);
    }

    /** The continuation of `acquire` after its dial settled. */
    method DialSettled(t: Task, result: Option<Session>)
      requires Inv(Model()) && Enabled(Model(), DialSettles(t, result))
      modifies this
      ensures Model() == Apply(old(Model()), DialSettles(t, result)) && Inv(Model())
    {
      hide Inv, Woken, DialFailed, Enabled, Top, Destroyed, Released, CloseFrom, Without;
      StepKeeps(Model(), DialSettles(t, result));
      WaitersAreTasks(Model());
      if result.None? { GiveSlotBack(t); return; }
      dialled := dialled + {result.value};
      if closed {
        DropLateSession(t, result.value);
      } else {
        owned := owned + {result.value};
        tasks := tasks[t := Holding(result.value)];
      }
    }

    /** What `send` and `sendRaw` do with their session once the transaction ended. */
    method GiveBackSession(t: Task, session: Session, succeeded: bool)
      requires Inv(Model()) && t in tasks && tasks[t] == Holding(session)
      modifies this
      ensures Model() == Apply(old(Model()), GiveBack(t, succeeded)) && Inv(Model())
      ensures succeeded && !closed ==> idle == old(idle) + [session] && session in owned && session !in shut
      ensures !succeeded || closed ==> idle == old(idle) && session !in owned && session in shut
      ensures closed == old(closed) && t in tasks && tasks[t] == Done
    {
      hide Inv, Top, Destroyed, Released, CloseFrom, Without, DialOk, DialFailed;
      StepKeeps(Model(), GiveBack(t, succeeded));
      HeldIsOwned(Model(), t, session);
      GiveBackMeans(Model(), t, session, succeeded);
      WaitersAreTasks(Model());
      tasks := tasks[t := Done];
      assert Model() == SetPhase(old(Model()), t, Done);
      if succeeded { Release(session); } else { Destroy(session); }
    }

    /** The abort listener of a waiter. */
    method AbortWaiter(t: Task)
      requires Inv(Model()) && t in tasks && tasks[t] == Waiting
      modifies this
      ensures Model() == Apply(old(Model()), AbortWait(t)) && Inv(Model())
    {
      StepKeeps(Model(), AbortWait(t));
      hide Inv;
      waiters := Without(waiters, t);
      tasks := tasks[t := Done];
    }

    /** `close` up to its first `await`, or to its end. */
    method Close()
      requires Inv(Model())
      modifies this
      ensures Model() == Apply(old(Model()), CallClose) && Inv(Model())
    {
      hide Inv, Apply, CloseFrom;
      StepKeeps(Model(), CallClose);
      WaitersAreTasks(Model());
      CloseCalled(Model());
      if closed { return; }
      closed := true;
      var taken := idle;
      idle := [];
      CloseNextSession(taken);
    }

    /** `close` when the QUIT it awaited has settled, well or badly. */
    method QuitSettled(current: Session, rest: seq<Session>)
      requires Inv(Model()) && closing == Quitting(current, rest)
      modifies this
      ensures Model() == Apply(old(Model()), QuitSettles) && Inv(Model())
    {
      StepKeeps(Model(), QuitSettles);
      WaitersAreTasks(Model());
      hide Inv;
      shut := shut + {current};
      CloseNextSession(rest);
    }

    /** The loop head of `close`: the next session, or the rejection of every waiter. */
    method CloseNextSession(rest: seq<Session>)
      requires forall t | t in waiters :: t in tasks
      modifies this
      ensures Model() == CloseFrom(old(Model()), rest)
    {
      if rest != [] {
        owned := owned - {rest[0]};
        live := live - 1;
        closing := Quitting(rest[0], rest[1..]);
        return;
      }
      closing := Finished;
      var rejected := waiters;
      waiters := [];
      for k := 0 to |rejected|
        invariant Model() == old(Model()).(waiters := [], closing := Finished, tasks := tasks)
        invariant tasks == map t | t in old(tasks) :: if t in rejected[..k] then Done else old(tasks)[t]
      {
        assert rejected[..k + 1] == rejected[..k] + [rejected[k]];
        assert rejected[k] in old(waiters);
        tasks := tasks[rejected[k] := Done];
      }
      assert rejected[..|rejected|] == rejected;
    }
  }

  lemma WaitersAreTasks(st: State)
    requires Inv(st)
    ensures forall t | t in st.waiters :: t in st.tasks
  {
    hide Accounted, Partitioned, ShutDown, Traced;
  }
}
