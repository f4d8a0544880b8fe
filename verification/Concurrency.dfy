/** Dispatches and other users of the registry, interleaved step by step around its mutex. */
module Concurrency {
  import opened Collections
  import opened Wrappers
  import opened Trees
  import opened Messages
  import opened Registry
  import opened Dispatcher

  type Tid = nat

  /** A registry call.  Looking up and listing change nothing, so one name stands for them. */
  datatype Op =
    | Change(e: Event)
    | Look

  /** Where a dispatch is. */
  datatype Stage =
    | Entered
    | WantsHas                      // blocked on the mutex in `hasMethod`
    | InHas                         // inside its lock region
    | WantsGet
    | InGet
    | Running(h: Handler)           // handler code, no lock held by the dispatcher
    | WantsOp(h: Handler, op: Op)   // the handler's own call of the registry
    | InOp(h: Handler, op: Op)
    | Replying(path: Path, ran: Option<Handler>)
    | Done(res: RpcResponse, path: Path, ran: Option<Handler>)

  datatype Thread =
    | Dispatch(req: RpcRequest, stage: Stage, hasAt: nat, getAt: nat)  // log positions of its two look-ups
    | Idle
    | WantsChange(op: Op)
    | InChange(op: Op)

  datatype State = State(methods: Methods, lock: Option<Tid>, threads: map<Tid, Thread>, log: seq<Event>)

  /** What a thread does next where it has a choice. */
  datatype Action =
    | Go
    | Calls(op: Op)             // a handler, or another thread, calls the registry
    | Ends(o: Outcome)          // a handler ends
    | Arrives(req: RpcRequest)  // a new dispatch begins
    | Joins                     // a new other thread begins

  predicate Holds(th: Thread) {
    match th
    case Dispatch(_, stage, _, _) => stage.InHas? || stage.InGet? || stage.InOp?
    case _ => th.InChange?
  }

  predicate Finished(th: Thread) {
    th.Dispatch? && th.stage.Done?
  }

  predicate Legal(op: Op) {
    op.Change? && op.e.Registered? ==> op.e.name != ""
  }

  function Put(s: State, t: Tid, th: Thread): State {
    s.(threads := s.threads[t := th])
  }

  function Lock(s: State, t: Tid, th: Thread): Option<State> {
    if s.lock.Some? then None else Some(Put(s, t, th).(lock := Some(t)))
  }

  function Unlock(s: State, t: Tid, th: Thread): State {
    Put(s, t, th).(lock := None)
  }

  /** The body of a lock region, and its end. */
  function Perform(s: State, t: Tid, op: Op, th: Thread): State {
    match op
    case Look => Unlock(s, t, th)
    case Change(e) => Unlock(s, t, th).(methods := Apply(s.methods, e), log := s.log + [e])
  }

  /** One atomic step of thread `t`; `None` when it cannot be taken. */
  function Step(s: State, t: Tid, a: Action): Option<State> {
    if t !in s.threads then
      match a
      case Arrives(req) => Some(Put(s, t, Dispatch(req, Entered, 0, 0)))
      case Joins => Some(Put(s, t, Idle))
      case _ => None
    else
      match s.threads[t]
      case Dispatch(req, stage, hasAt, getAt) => DispatchStep(s, t, a, s.threads[t])
      case Idle => if a.Calls? && Legal(a.op) then Some(Put(s, t, WantsChange(a.op))) else None
      case WantsChange(op) => if a.Go? then Lock(s, t, InChange(op)) else None
      case InChange(op) => if a.Go? then Some(Perform(s, t, op, Idle)) else None
  }

  function DispatchStep(s: State, t: Tid, a: Action, th: Thread): Option<State>
    requires th.Dispatch?
  {
    match (th.stage, a)
    case (Entered, Go) =>
      Some(Put(s, t, th.(stage := if th.req.name == "" then Replying(EmptyName, None) else WantsHas)))
    case (WantsHas, Go) => Lock(s, t, th.(stage := InHas))
    case (InHas, Go) =>
      Some(Unlock(s, t, th.(hasAt := |s.log|,
                            stage := if th.req.name in s.methods then WantsGet else Replying(Unbound, None))))
    case (WantsGet, Go) => Lock(s, t, th.(stage := InGet))
    case (InGet, Go) =>
      Some(Unlock(s, t, th.(getAt := |s.log|,
                            stage := if th.req.name in s.methods then Running(s.methods[th.req.name])
                                     else Replying(Gone, None))))
    case (Running(h), Calls(op)) => if Legal(op) then Some(Put(s, t, th.(stage := WantsOp(h, op)))) else None
    case (Running(h), Ends(o)) => Some(Put(s, t, th.(stage := Replying(Called(o), Some(h)))))
    case (Replying(path, ran), Go) => Some(Put(s, t, th.(stage := Done(Reply(th.req, path), path, ran))))
    case (WantsOp(h, op), Go) => Lock(s, t, th.(stage := InOp(h, op)))
    case (InOp(h, op), Go) => Some(Perform(s, t, op, th.(stage := Running(h))))
    case _ => None
  }

  const INITIAL: State := State(map[], None, map[], [])

  /** A run: the state after a schedule of steps, all of which can be taken. */
  function Run(s: State, schedule: seq<(Tid, Action)>): Option<State>
    decreases |schedule|
  {
    if schedule == [] then Some(s)
    else
      var s' := Step(s, schedule[0].0, schedule[0].1);
      if s'.None? then None else Run(s'.value, schedule[1..])
  }

  // ---- The invariant ---------------------------------------------------------------------

  ghost predicate BoundAt(log: seq<Event>, n: nat, name: string) {
    n <= |log| && name in Replay(log[..n])
  }

  ghost predicate UnboundAt(log: seq<Event>, n: nat, name: string) {
    n <= |log| && name !in Replay(log[..n])
  }

  /** The handler that runs, or ran, is the one bound at the `getHandler` step. */
  ghost predicate Fetched(log: seq<Event>, th: Thread, h: Handler)
    requires th.Dispatch?
  {
    && th.req.name != ""
    && BoundAt(log, th.hasAt, th.req.name) && th.hasAt <= th.getAt
    && BoundAt(log, th.getAt, th.req.name) && Replay(log[..th.getAt])[th.req.name] == h
  }

  /** What the way a dispatch went says about the log. */
  ghost predicate Resolved(log: seq<Event>, th: Thread, path: Path, ran: Option<Handler>)
    requires th.Dispatch?
  {
    match path
    case EmptyName => th.req.name == "" && ran.None?
    case Unbound => th.req.name != "" && ran.None? && UnboundAt(log, th.hasAt, th.req.name)
    case Gone =>
      && th.req.name != "" && ran.None? && BoundAt(log, th.hasAt, th.req.name) && th.hasAt <= th.getAt
      && UnboundAt(log, th.getAt, th.req.name)
    case Called(_) => ran.Some? && Fetched(log, th, ran.value)
  }

  /** What the stage of a dispatch says about the log. */
  ghost predicate Justified(log: seq<Event>, th: Thread) {
    th.Dispatch? ==>
    match th.stage
    case Entered => true
    case WantsHas => th.req.name != ""
    case InHas => th.req.name != ""
    case WantsGet => th.req.name != "" && BoundAt(log, th.hasAt, th.req.name)
    case InGet => th.req.name != "" && BoundAt(log, th.hasAt, th.req.name)
    case Running(h) => Fetched(log, th, h)
    case WantsOp(h, _) => Fetched(log, th, h)
    case InOp(h, _) => Fetched(log, th, h)
    case Replying(path, ran) => Resolved(log, th, path, ran)
    case Done(res, path, ran) => res == Reply(th.req, path) && Resolved(log, th, path, ran)
  }

  ghost predicate Inv(s: State) {
    && s.methods == Replay(s.log)
    && (forall t :: t in s.threads ==> Justified(s.log, s.threads[t]))
    && (forall t :: t in s.threads && Holds(s.threads[t]) ==> s.lock == Some(t))
    && (s.lock.Some? ==> s.lock.value in s.threads && Holds(s.threads[s.lock.value]))
  }

  /** A longer log says the same about its past. */
  lemma JustifiedLater(log: seq<Event>, e: Event, th: Thread)
    requires Justified(log, th)
    ensures Justified(log + [e], th)
  {
    if th.Dispatch? {
      assert th.hasAt <= |log| ==> (log + [e])[..th.hasAt] == log[..th.hasAt];
      assert th.getAt <= |log| ==> (log + [e])[..th.getAt] == log[..th.getAt];
    }
  }

  lemma JustifiedNow(log: seq<Event>)
    ensures log[..|log|] == log
  {}

  /** Every step of every thread keeps the invariant. */
  lemma StepKeeps(s: State, t: Tid, a: Action)
    requires Inv(s) && Step(s, t, a).Some?
    ensures Inv(Step(s, t, a).value)
  {
    hide Replay;
    var s' := Step(s, t, a).value;
    JustifiedNow(s.log);
    if t in s.threads && (s.threads[t].InChange? || (s.threads[t].Dispatch? && s.threads[t].stage.InOp?)) {
      PerformKeeps(s, t, if s.threads[t].InChange? then s.threads[t].op else s.threads[t].stage.op,
                   s'.threads[t]);
    } else {
      QuietKeeps(s, t, a);
    }
  }

  lemma PerformKeeps(s: State, t: Tid, op: Op, th: Thread)
    requires Inv(s) && s.lock == Some(t) && Justified(s.log, th) && !Holds(th)
    ensures Inv(Perform(s, t, op, th))
  {
    hide Replay, Justified;
    if op.Change? {
      ReplayStep(s.log, op.e);
      forall u | u in s.threads
        ensures Justified(s.log + [op.e], s.threads[u])
      {
        JustifiedLater(s.log, op.e, s.threads[u]);
      }
      JustifiedLater(s.log, op.e, th);
    }
  }

  /** The step is not the body of a lock region that may change the registry. */
  ghost predicate Quiet(s: State, t: Tid, a: Action) {
    && Step(s, t, a).Some?
    && (t in s.threads ==> !s.threads[t].InChange? && !(s.threads[t].Dispatch? && s.threads[t].stage.InOp?))
  }

  lemma QuietFrame(s: State, t: Tid, a: Action)
    requires Quiet(s, t, a)
    ensures var s' := Step(s, t, a).value;
      && s'.methods == s.methods && s'.log == s.log && t in s'.threads
      && s'.threads == s.threads[t := s'.threads[t]]
  {}

  lemma QuietJustified(s: State, t: Tid, a: Action)
    requires Inv(s) && Quiet(s, t, a)
    ensures t in Step(s, t, a).value.threads && Justified(s.log, Step(s, t, a).value.threads[t])
  {
    hide Replay;
    JustifiedNow(s.log);
  }

  lemma QuietLock(s: State, t: Tid, a: Action)
    requires Inv(s) && Quiet(s, t, a)
    ensures var s' := Step(s, t, a).value;
      && (forall u :: u in s'.threads && Holds(s'.threads[u]) ==> s'.lock == Some(u))
      && (s'.lock.Some? ==> s'.lock.value in s'.threads && Holds(s'.threads[s'.lock.value]))
  {}

  lemma QuietKeeps(s: State, t: Tid, a: Action)
    requires Inv(s) && Quiet(s, t, a)
    ensures Inv(Step(s, t, a).value)
  {
    hide Replay, Justified, Step, Holds, Quiet;
    QuietFrame(s, t, a);
    QuietJustified(s, t, a);
    QuietLock(s, t, a);
  }

  /** The invariant holds in every state of every run, in every interleaving. */
  lemma {:induction false} RunKeeps(s: State, schedule: seq<(Tid, Action)>)
    requires Inv(s) && Run(s, schedule).Some?
    ensures Inv(Run(s, schedule).value)
    decreases |schedule|
  {
    if schedule != [] {
      StepKeeps(s, schedule[0].0, schedule[0].1);
      RunKeeps(Step(s, schedule[0].0, schedule[0].1).value, schedule[1..]);
    }
  }

  ghost predicate Reachable(s: State) {
    exists schedule :: Run(INITIAL, schedule) == Some(s)
  }

  lemma ReachableInv(s: State)
    requires Reachable(s)
    ensures Inv(s)
  {
    var schedule :| Run(INITIAL, schedule) == Some(s);
    RunKeeps(INITIAL, schedule);
  }

  // ---- What every run guarantees ---------------------------------------------------------

  lemma BindsIsEntry(log: seq<Event>, name: string, k: nat)
    requires Binds(log, name, k)
    ensures k < |log| && log[k].Registered? && log[k].name == name
  {}

  /** The error a client gets for each way a dispatch can go; none when the handler returned. */
  ghost function ErrorFor(name: string, path: Path): Option<RpcError> {
    match path
    case EmptyName => Some(RpcError(-32600, "Empty method", None))
    case Unbound => Some(RpcError(-32601, "Method not found: " + name, None))
    case Gone => Some(RpcError(-32603, "Unhandled exception: Method not found: " + name, None))
    case Called(Returns(_)) => None
    case Called(ThrowsRpc(e)) => Some(e)
    case Called(ThrowsStd(what)) => Some(RpcError(-32603, "Unhandled exception: " + what, None))
    case Called(ThrowsOther) => Some(RpcError(-32603, "Unknown exception", None))
  }

  /** Whatever the handler does and whatever other threads do to the registry, the response a finished
      dispatch holds has exactly one of result and error and the request's id.  It has a result
      exactly when a handler returned one, and the error is the handler's own or has the code and the
      text of the way the dispatch went. */
  lemma AnswersAreValid(s: State, t: Tid)
    requires Reachable(s) && t in s.threads && Finished(s.threads[t])
    ensures var th := s.threads[t]; var r := th.stage.res; var path := th.stage.path;
      && r.IsValid() && r.id == th.req.id
      && (forall v :: r.result == Some(v) <==> path == Called(Returns(v)))
      && r.error == ErrorFor(th.req.name, path)
  {
    ReachableInv(s);
    assert Justified(s.log, s.threads[t]);
  }

  // ---- When a dispatch did what ----------------------------------------------------------

  type Schedule = seq<(Tid, Action)>

  /** Positions in a schedule: where a dispatch arrives, leaves the lock regions of its two look-ups,
      and its handler ends. */
  datatype Times = Times(arrival: nat, has: nat, get: nat, end: nat)

  /** The dispatch has made its first look-up, or its second. */
  predicate PastHas(th: Thread)
    requires th.Dispatch?
  {
    match th.stage
    case Entered => false
    case WantsHas => false
    case InHas => false
    case Replying(path, _) => !path.EmptyName?
    case Done(_, path, _) => !path.EmptyName?
    case _ => true
  }

  predicate PastGet(th: Thread)
    requires th.Dispatch?
  {
    match th.stage
    case Running(_) => true
    case WantsOp(_, _) => true
    case InOp(_, _) => true
    case Replying(path, _) => path.Gone? || path.Called?
    case Done(_, path, _) => path.Gone? || path.Called?
    case _ => false
  }

  function Ended(th: Thread): Option<Outcome>
    requires th.Dispatch?
  {
    match th.stage
    case Replying(Called(o), _) => Some(o)
    case Done(_, Called(o), _) => Some(o)
    case _ => None
  }

  /** Before step `i` the thread is in that lock region of a dispatch of `req` and holds the mutex, the
      log has `n` entries, and step `i` leaves the region. */
  ghost predicate LooksUp(schedule: Schedule, i: nat, t: Tid, req: RpcRequest, stage: Stage, n: nat) {
    && i < |schedule| && schedule[i] == (t, Go)
    && var s := Run(INITIAL, schedule[..i]);
       && s.Some? && t in s.value.threads && s.value.lock == Some(t) && |s.value.log| == n
       && s.value.threads[t].Dispatch? && s.value.threads[t].req == req && s.value.threads[t].stage == stage
  }

  /** Step `i` is the first of thread `t`. */
  ghost predicate ArrivesAt(schedule: Schedule, i: nat, t: Tid, req: RpcRequest) {
    && i < |schedule| && schedule[i] == (t, Arrives(req))
    && var s := Run(INITIAL, schedule[..i]); s.Some? && t !in s.value.threads
  }

  ghost predicate EndsAt(schedule: Schedule, e: nat, t: Tid) {
    e < |schedule| && schedule[e].0 == t && schedule[e].1.Ends?
  }

  /** The schedule has the steps that a dispatch has taken, in order. */
  ghost predicate Timed(schedule: Schedule, t: Tid, th: Thread, w: Times)
    requires th.Dispatch?
  {
    && ArrivesAt(schedule, w.arrival, t, th.req)
    && (PastHas(th) ==> w.arrival < w.has && LooksUp(schedule, w.has, t, th.req, InHas, th.hasAt))
    && (PastGet(th) ==> w.has < w.get && LooksUp(schedule, w.get, t, th.req, InGet, th.getAt))
    && (Ended(th).Some? ==> w.get < w.end < |schedule| && schedule[w.end] == (t, Ends(Ended(th).value)))
    && (forall e: nat :: EndsAt(schedule, e, t) ==> Ended(th).Some? && e == w.end)
  }

  /** One more step leaves what the schedule had. */
  lemma EarlierSteps(schedule: Schedule, more: (Tid, Action))
    ensures var longer := schedule + [more];
      && (forall i: nat, t, req, stage, n ::
            LooksUp(schedule, i, t, req, stage, n) ==> LooksUp(longer, i, t, req, stage, n))
      && (forall i: nat, t, req :: ArrivesAt(schedule, i, t, req) ==> ArrivesAt(longer, i, t, req))
      && (forall e: nat, t :: EndsAt(longer, e, t) <==>
            EndsAt(schedule, e, t) || (e == |schedule| && more.0 == t && more.1.Ends?))
      && longer[..|schedule|] == schedule
  {
    hide Run;
    var longer := schedule + [more];
    assert forall i :: 0 <= i <= |schedule| ==> longer[..i] == schedule[..i];
    assert schedule[..|schedule|] == schedule;
  }

  ghost predicate AllTimed(schedule: Schedule, s: State) {
    forall t :: t in s.threads && s.threads[t].Dispatch? ==> exists w :: Timed(schedule, t, s.threads[t], w)
  }

  /** The thread did nothing: its times stay. */
  lemma OthersTimed(schedule: Schedule, more: (Tid, Action), t: Tid, th: Thread, w: Times)
    requires th.Dispatch? && Timed(schedule, t, th, w) && more.0 != t
    ensures Timed(schedule + [more], t, th, w)
  {
    hide LooksUp, ArrivesAt, EndsAt;
    EarlierSteps(schedule, more);
  }

  /** The times after one more step of the dispatch itself. */
  ghost function TimesAfter(w: Times, th: Thread, n: nat): Times
    requires th.Dispatch?
  {
    match th.stage
    case InHas => w.(has := n)
    case InGet => w.(get := n)
    case Running(_) => w.(end := n)
    case _ => w
  }

  lemma StepTimed(schedule: Schedule, s: State, t: Tid, a: Action, w: Times)
    requires Run(INITIAL, schedule) == Some(s) && Inv(s) && Step(s, t, a).Some?
    requires t in s.threads && s.threads[t].Dispatch? && Timed(schedule, t, s.threads[t], w)
    ensures var th := Step(s, t, a).value.threads[t];
      th.Dispatch? && Timed(schedule + [(t, a)], t, th, TimesAfter(w, s.threads[t], |schedule|))
  {
    hide Run, Inv, LooksUp, ArrivesAt, EndsAt, Reply;
    EarlierSteps(schedule, (t, a));
    StepsWithin(schedule, t);
    LooksUpNow(schedule, s, t);
    EndsNow(schedule, t, a);
  }

  lemma StepsWithin(schedule: Schedule, t: Tid)
    ensures forall i: nat, req, stage, n :: LooksUp(schedule, i, t, req, stage, n) ==> i < |schedule|
    ensures forall i: nat, req :: ArrivesAt(schedule, i, t, req) ==> i < |schedule|
    ensures forall e: nat :: EndsAt(schedule, e, t) ==> e < |schedule|
  {}

  /** A dispatch that leaves a lock region now looks up now. */
  lemma LooksUpNow(schedule: Schedule, s: State, t: Tid)
    requires Run(INITIAL, schedule) == Some(s) && Inv(s) && t in s.threads && s.threads[t].Dispatch?
    ensures Holds(s.threads[t]) ==>
      var th := s.threads[t]; LooksUp(schedule + [(t, Go)], |schedule|, t, th.req, th.stage, |s.log|)
  {
    hide Run;
    assert (schedule + [(t, Go)])[..|schedule|] == schedule;
  }

  lemma {:induction false} RunPrefix(s: State, a: Schedule, b: Schedule)
    requires Run(s, a + b).Some?
    ensures Run(s, a).Some? && Run(s, a + b) == Run(Run(s, a).value, b)
    decreases |a|
  {
    if a == [] {
      assert a + b == b;
    } else {
      assert (a + b)[1..] == a[1..] + b;
      RunPrefix(Step(s, a[0].0, a[0].1).value, a[1..], b);
    }
  }

  /** A dispatch that has just arrived has done nothing before. */
  lemma ArrivalTimed(schedule: Schedule, s: State, t: Tid, req: RpcRequest)
    requires Run(INITIAL, schedule) == Some(s) && t !in s.threads && Quits(schedule, t)
    ensures Timed(schedule + [(t, Arrives(req))], t, Dispatch(req, Entered, 0, 0), Times(|schedule|, 0, 0, 0))
  {
    hide Run, LooksUp;
    EarlierSteps(schedule, (t, Arrives(req)));
  }

  /** The thread ended no handler. */
  ghost predicate Quits(schedule: Schedule, t: Tid) {
    forall e: nat :: !EndsAt(schedule, e, t)
  }

  /** In every run, the schedule has the steps of each dispatch, and no thread ends a handler but a
      dispatch. */
  lemma {:induction false} RunTimed(schedule: Schedule)
    requires Run(INITIAL, schedule).Some?
    ensures var s := Run(INITIAL, schedule).value;
      && Inv(s) && AllTimed(schedule, s)
      && forall t :: t !in s.threads || !s.threads[t].Dispatch? ==> Quits(schedule, t)
    decreases |schedule|
  {
    hide Inv, Timed, Step, EndsAt;
    if schedule == [] {
      NothingEnded();
    } else {
      var before, step := schedule[..|schedule| - 1], schedule[|schedule| - 1];
      assert schedule == before + [step];
      RunPrefix(INITIAL, before, [step]);
      var s := Run(INITIAL, before).value;
      RunOne(s, step.0, step.1);
      RunTimed(before);
      StepKeeps(s, step.0, step.1);
      forall t
        ensures var s' := Run(INITIAL, schedule).value;
          if t in s'.threads && s'.threads[t].Dispatch? then exists w :: Timed(schedule, t, s'.threads[t], w)
          else Quits(schedule, t)
      {
        ThreadTimed(before, s, step, t);
      }
    }
  }

  lemma NothingEnded()
    ensures Inv(INITIAL) && forall t :: Quits([], t)
  {}

  /** What one step keeps for one thread. */
  lemma ThreadTimed(schedule: Schedule, s: State, step: (Tid, Action), t: Tid)
    requires Run(INITIAL, schedule) == Some(s) && Inv(s) && Step(s, step.0, step.1).Some?
    requires if t in s.threads && s.threads[t].Dispatch? then exists w :: Timed(schedule, t, s.threads[t], w)
             else Quits(schedule, t)
    ensures var s' := Step(s, step.0, step.1).value;
      if t in s'.threads && s'.threads[t].Dispatch? then exists w :: Timed(schedule + [step], t, s'.threads[t], w)
      else Quits(schedule + [step], t)
  {
    hide Run, Inv, Timed, EndsAt;
    var s' := Step(s, step.0, step.1).value;
    StepFrame(s, step.0, step.1, t);
    if t in s.threads && s.threads[t].Dispatch? {
      var w :| Timed(schedule, t, s.threads[t], w);
      if step.0 == t {
        StepTimed(schedule, s, t, step.1, w);
      } else {
        OthersTimed(schedule, step, t, s.threads[t], w);
      }
    } else {
      if step.0 == t && step.1.Arrives? {
        ArrivalTimed(schedule, s, t, step.1.req);
      }
      EarlierSteps(schedule, step);
    }
  }

  /** A step changes its own thread only, and a thread that is no dispatch stays none. */
  lemma StepFrame(s: State, u: Tid, a: Action, t: Tid)
    requires Step(s, u, a).Some?
    ensures var s' := Step(s, u, a).value;
      && (u != t ==> (t in s'.threads <==> t in s.threads))
      && (u != t && t in s.threads ==> s'.threads[t] == s.threads[t])
      && (u == t && (t !in s.threads || !s.threads[t].Dispatch?) ==>
            && !a.Ends? && t in s'.threads
            && (s'.threads[t].Dispatch? ==>
                  a.Arrives? && t !in s.threads && s'.threads[t] == Dispatch(a.req, Entered, 0, 0)))
      && (u == t && a.Arrives? ==> t !in s.threads && s'.threads[t].Dispatch?)
  {}

  lemma EndsNow(schedule: Schedule, t: Tid, a: Action)
    ensures EndsAt(schedule + [(t, a)], |schedule|, t) <==> a.Ends?
    ensures (schedule + [(t, a)])[|schedule|] == (t, a)
  {}

  // ---- What the schedule says about a finished dispatch ----------------------------------

  lemma {:induction false} LogGrows(s: State, schedule: Schedule)
    requires Run(s, schedule).Some?
    ensures s.log <= Run(s, schedule).value.log && s.threads.Keys <= Run(s, schedule).value.threads.Keys
    decreases |schedule|
  {
    if schedule != [] {
      LogGrows(Step(s, schedule[0].0, schedule[0].1).value, schedule[1..]);
    }
  }

  /** The state before a step of a run. */
  lemma StateBefore(schedule: Schedule, i: nat, k: nat)
    requires Run(INITIAL, schedule).Some? && i <= k <= |schedule|
    ensures Run(INITIAL, schedule[..i]).Some? && Run(INITIAL, schedule[..k]).Some?
    ensures var s, u := Run(INITIAL, schedule[..i]).value, Run(INITIAL, schedule[..k]).value;
      && Run(s, schedule[i..k]) == Some(u) && Inv(s)
      && s.log <= u.log <= Run(INITIAL, schedule).value.log && s.threads.Keys <= u.threads.Keys
  {
    hide Run, Inv;
    assert schedule[..k] + schedule[k..] == schedule && schedule[..i] + schedule[i..k] == schedule[..k];
    RunPrefix(INITIAL, schedule[..k], schedule[k..]);
    RunPrefix(INITIAL, schedule[..i], schedule[i..k]);
    LogGrows(Run(INITIAL, schedule[..i]).value, schedule[i..k]);
    LogGrows(Run(INITIAL, schedule[..k]).value, schedule[k..]);
    NothingEnded();
    RunKeeps(INITIAL, schedule[..i]);
  }

  /** What a look-up in a run found is what the log of the whole run says at that length. */
  lemma FoundThen(schedule: Schedule, i: nat, t: Tid, req: RpcRequest, stage: Stage, n: nat)
    requires Run(INITIAL, schedule).Some? && LooksUp(schedule, i, t, req, stage, n)
    ensures var log := Run(INITIAL, schedule).value.log;
      n <= |log| && Run(INITIAL, schedule[..i]).value.methods == Replay(log[..n])
  {
    hide Run, Replay;
    StateBefore(schedule, i, i);
    assert Run(INITIAL, schedule[..i]).value.log == Run(INITIAL, schedule).value.log[..n];
  }

  ghost function MethodsAt(schedule: Schedule, i: nat): Methods
    requires i <= |schedule|
  {
    var s := Run(INITIAL, schedule[..i]);
    if s.Some? then s.value.methods else map[]
  }

  /** The dispatch arrived, and then made its look-ups, in lock regions of its own: "method not found"
      means that the name was not bound in the registry at the first, an internal error without a
      handler call that it was bound then and not at the second, and the handler called is the one bound
      at the second.  The dispatch ended as the handler did in the schedule. */
  ghost predicate Took(schedule: Schedule, t: Tid, th: Thread, w: Times)
    requires Finished(th)
  {
    var path, name := th.stage.path, th.req.name;
    && ArrivesAt(schedule, w.arrival, t, th.req)
    && (path.EmptyName? <==> name == "")
    && (!path.EmptyName? ==>
          && w.arrival < w.has < |schedule| && LooksUp(schedule, w.has, t, th.req, InHas, th.hasAt)
          && (path.Unbound? <==> name !in MethodsAt(schedule, w.has)))
    && (path.Called? <==> th.stage.ran.Some?)
    && (path.Gone? || path.Called? ==>
          && w.has < w.get < |schedule| && LooksUp(schedule, w.get, t, th.req, InGet, th.getAt)
          && (path.Gone? <==> name !in MethodsAt(schedule, w.get)))
    && (path.Called? ==>
          && w.get < w.end < |schedule| && schedule[w.end] == (t, Ends(path.o))
          && name in MethodsAt(schedule, w.get) && th.stage.ran == Some(MethodsAt(schedule, w.get)[name]))
    && forall o :: path == Called(o) <==> (t, Ends(o)) in schedule
  }

  /** Every finished dispatch of a run went that way. */
  lemma LookUpsInRun(schedule: Schedule, s: State, t: Tid) returns (w: Times)
    requires Run(INITIAL, schedule) == Some(s) && t in s.threads && Finished(s.threads[t])
    ensures Took(schedule, t, s.threads[t], w)
  {
    hide Run, Replay, LooksUp, ArrivesAt;
    RunTimed(schedule);
    var th := s.threads[t];
    w :| Timed(schedule, t, th, w);
    assert Justified(s.log, th);
    StepsWithin(schedule, t);
    if PastHas(th) {
      FoundThen(schedule, w.has, t, th.req, InHas, th.hasAt);
      MethodsThen(schedule, w.has, t, th.req, InHas, th.hasAt);
    }
    if PastGet(th) {
      FoundThen(schedule, w.get, t, th.req, InGet, th.getAt);
      MethodsThen(schedule, w.get, t, th.req, InGet, th.getAt);
    }
    forall o
      ensures th.stage.path == Called(o) <==> (t, Ends(o)) in schedule
    {
      if (t, Ends(o)) in schedule {
        var e: nat :| e < |schedule| && schedule[e] == (t, Ends(o));
        assert EndsAt(schedule, e, t);
      }
    }
  }

  lemma MethodsThen(schedule: Schedule, i: nat, t: Tid, req: RpcRequest, stage: Stage, n: nat)
    requires LooksUp(schedule, i, t, req, stage, n)
    ensures i < |schedule| && Run(INITIAL, schedule[..i]) == Some(Run(INITIAL, schedule[..i]).value)
    ensures MethodsAt(schedule, i) == Run(INITIAL, schedule[..i]).value.methods
  {}

  /** A thread arrives once. */
  lemma ArrivesOnce(schedule: Schedule, i: nat, k: nat, t: Tid, req: RpcRequest, req': RpcRequest)
    requires Run(INITIAL, schedule).Some? && ArrivesAt(schedule, i, t, req) && ArrivesAt(schedule, k, t, req')
    ensures i == k
  {
    if i != k {
      var a, b := if i < k then i else k, if i < k then k else i;
      StateBefore(schedule, a + 1, b);
      assert schedule[..a + 1] == schedule[..a] + [schedule[a]];
      RunPrefix(INITIAL, schedule[..a], [schedule[a]]);
      RunOne(Run(INITIAL, schedule[..a]).value, schedule[a].0, schedule[a].1);
    }
  }

  /** A name whose entry nobody removes stays bound, and one that nobody registers stays unbound. */
  lemma {:induction false} Undisturbed(log: seq<Event>, name: string, lo: nat, hi: nat)
    requires lo <= hi <= |log|
    ensures name in Replay(log[..lo]) && (forall j :: lo <= j < hi ==> !IsRemoval(log[j], name)) ==>
      name in Replay(log[..hi])
    ensures name !in Replay(log[..lo]) && (forall j :: lo <= j < hi ==> !IsRegistration(log[j], name)) ==>
      name !in Replay(log[..hi])
  {
    if lo < hi {
      assert log[..hi][..hi - 1] == log[..hi - 1];
      Undisturbed(log, name, lo, hi - 1);
    }
  }

  /** So a method that is bound when its request arrives and is not removed before the dispatch finishes
      is called, and one that is not bound then and not registered before is not found. */
  lemma SettledNames(schedule: Schedule, s: State, t: Tid, arrival: nat)
    requires Run(INITIAL, schedule) == Some(s) && t in s.threads && Finished(s.threads[t])
    requires ArrivesAt(schedule, arrival, t, s.threads[t].req) && s.threads[t].req.name != ""
    ensures var name, path := s.threads[t].req.name, s.threads[t].stage.path;
      var since := |Run(INITIAL, schedule[..arrival]).value.log|;
      && (name in MethodsAt(schedule, arrival) && (forall j :: since <= j < |s.log| ==> !IsRemoval(s.log[j], name)) ==>
            path.Called?)
      && (name !in MethodsAt(schedule, arrival)
          && (forall j :: since <= j < |s.log| ==> !IsRegistration(s.log[j], name)) ==>
            path.Unbound?)
  {
    hide Run, Replay, ArrivesAt, LooksUp, IsRemoval, IsRegistration;
    var name, path := s.threads[t].req.name, s.threads[t].stage.path;
    var w := LookUpsInRun(schedule, s, t);
    ArrivesOnce(schedule, arrival, w.arrival, t, s.threads[t].req, s.threads[t].req);
    StepsWithin(schedule, t);
    SettledAt(schedule, arrival, w.has, name);
    if !path.Unbound? {
      SettledAt(schedule, arrival, w.get, name);
    }
  }

  lemma SettledAt(schedule: Schedule, i: nat, k: nat, name: string)
    requires Run(INITIAL, schedule).Some? && i <= k <= |schedule|
    ensures Run(INITIAL, schedule[..i]).Some?
    ensures var log, since := Run(INITIAL, schedule).value.log, |Run(INITIAL, schedule[..i]).value.log|;
      && (name in MethodsAt(schedule, i) && (forall j :: since <= j < |log| ==> !IsRemoval(log[j], name)) ==>
            name in MethodsAt(schedule, k))
      && (name !in MethodsAt(schedule, i) && (forall j :: since <= j < |log| ==> !IsRegistration(log[j], name)) ==>
            name !in MethodsAt(schedule, k))
  {
    hide Run, Replay, IsRemoval, IsRegistration;
    StateBefore(schedule, i, k);
    StateBefore(schedule, k, k);
    var log := Run(INITIAL, schedule).value.log;
    var a, b := Run(INITIAL, schedule[..i]).value.log, Run(INITIAL, schedule[..k]).value.log;
    assert a == log[..|a|] && b == log[..|b|];
    Undisturbed(log, name, |a|, |b|);
  }

  /** Every finished dispatch of a run is justified by the log at its look-ups: the handler called is that
      of the last effective registration when `getHandler` held the mutex; "method not found" from the
      dispatcher means that no registration was left when `hasMethod` held it; and an internal error
      without a handler call that the name was removed in between. */
  lemma DispatchLinearizes(schedule: Schedule, s: State, t: Tid) returns (w: Times)
    requires Run(INITIAL, schedule) == Some(s) && t in s.threads && Finished(s.threads[t])
    ensures Took(schedule, t, s.threads[t], w)
    ensures var th := s.threads[t]; var name := th.req.name;
      match th.stage.path
      case EmptyName => name == ""
      case Unbound => th.hasAt <= |s.log| && !StillRegistered(s.log[..th.hasAt], name)
      case Gone =>
        && th.hasAt <= th.getAt <= |s.log| && StillRegistered(s.log[..th.hasAt], name)
        && RemovedAfter(s.log, name, th.hasAt - 1, th.getAt)
      case Called(_) =>
        && th.stage.ran.Some? && th.getAt <= |s.log|
        && exists k: nat :: k < th.getAt && Binds(s.log[..th.getAt], name, k)
             && s.log[k].Registered? && s.log[k].handler == th.stage.ran.value
  {
    hide Replay, RemovedAfter, StillRegistered, Binds, Took, Run;
    w := LookUpsInRun(schedule, s, t);
    RunTimed(schedule);
    var th := s.threads[t];
    assert Justified(s.log, th);
    match th.stage.path
    case EmptyName =>
    case Unbound => ReplayAgrees(s.log[..th.hasAt], th.req.name);
    case Gone =>
      ReplayAgrees(s.log[..th.hasAt], th.req.name);
      RemovalBetween(s.log, th.req.name, th.hasAt, th.getAt);
    case Called(_) =>
      ReplayAgrees(s.log[..th.getAt], th.req.name);
      var k: nat :| Binds(s.log[..th.getAt], th.req.name, k);
      BindsIsEntry(s.log[..th.getAt], th.req.name, k);
  }

  lemma ResponseIsReply(s: State, t: Tid)
    requires Reachable(s) && t in s.threads && Finished(s.threads[t])
    ensures s.threads[t].stage.res == Reply(s.threads[t].req, s.threads[t].stage.path)
  {
    ReachableInv(s);
    assert Justified(s.log, s.threads[t]);
  }

  /** The mutex is held by at most one thread, and never by a dispatch whose handler runs. */
  lemma HandlersRunUnlocked(s: State, t: Tid, u: Tid)
    requires Reachable(s) && t in s.threads && u in s.threads
    ensures Holds(s.threads[t]) && Holds(s.threads[u]) ==> t == u
    ensures s.threads[t].Dispatch? && s.threads[t].stage.Running? ==> s.lock != Some(t)
  {
    ReachableInv(s);
  }

  /** So a handler may remove or replace any method, its own included: nothing but another
      thread's lock region can delay it, and the handler goes on running. */
  lemma HandlerMayChange(s: State, t: Tid, e: Event)
    requires Reachable(s) && t in s.threads && s.threads[t].Dispatch? && s.threads[t].stage.Running?
    requires (e.Registered? ==> e.name != "") && s.lock.None?
    ensures var r := Run(s, [(t, Calls(Change(e))), (t, Go), (t, Go)]);
      && r.Some? && r.value.methods == Apply(s.methods, e) && r.value.log == s.log + [e]
      && r.value.threads == s.threads && r.value.lock.None?
  {
    hide Replay, Apply;
    var steps := [(t, Calls(Change(e))), (t, Go), (t, Go)];
    var s1 := Step(s, t, Calls(Change(e))).value;
    var s2 := Step(s1, t, Go).value;
    var s3 := Step(s2, t, Go).value;
    assert s3.threads == s.threads;
    assert steps[1..] == [(t, Go), (t, Go)] && steps[1..][1..] == [(t, Go)];
    RunOne(s2, t, Go);
  }

  /** Another thread changes the registry in the same way. */
  lemma ThreadMayChange(s: State, t: Tid, e: Event)
    requires t in s.threads && s.threads[t].Idle? && (e.Registered? ==> e.name != "") && s.lock.None?
    ensures var r := Run(s, [(t, Calls(Change(e))), (t, Go), (t, Go)]);
      && r.Some? && r.value.methods == Apply(s.methods, e) && r.value.log == s.log + [e]
      && r.value.threads == s.threads && r.value.lock.None?
  {
    hide Replay, Apply;
    var steps := [(t, Calls(Change(e))), (t, Go), (t, Go)];
    var s1 := Step(s, t, Calls(Change(e))).value;
    var s2 := Step(s1, t, Go).value;
    assert Step(s2, t, Go).value.threads == s.threads;
    assert steps[1..] == [(t, Go), (t, Go)] && steps[1..][1..] == [(t, Go)];
    RunOne(s2, t, Go);
  }

  // ---- One thread on its own -------------------------------------------------------------

  /** A schedule of one thread. */
  function By(t: Tid, actions: seq<Action>): (r: Schedule)
    ensures |r| == |actions| && forall i :: 0 <= i < |r| ==> r[i] == (t, actions[i])
  {
    seq(|actions|, i requires 0 <= i < |actions| => (t, actions[i]))
  }

  lemma ByCons(s: State, t: Tid, a: Action, rest: seq<Action>)
    requires Step(s, t, a).Some?
    ensures Run(s, By(t, [a] + rest)) == Run(Step(s, t, a).value, By(t, rest))
  {
    assert By(t, [a] + rest)[1..] == By(t, rest);
  }

  /** The way a dispatch goes when no other thread takes a step and its handler, if it runs, calls
      nothing and ends in `o`. */
  function LonePath(methods: Methods, name: string, o: Outcome): Path {
    if name == "" then EmptyName else if name in methods then Called(o) else Unbound
  }

  function LoneActions(req: RpcRequest, path: Path): seq<Action> {
    match path
    case EmptyName => [Arrives(req), Go, Go]
    case Called(o) => [Arrives(req), Go, Go, Go, Go, Go, Ends(o), Go]
    case _ => [Arrives(req), Go, Go, Go, Go]
  }

  /** A request can arrive in any state, and with the mutex free its dispatch alone runs to the end: the
      bound handler is called, and a name without one is answered by an error; the registry stays as it
      is. */
  lemma LoneDispatch(s: State, t: Tid, req: RpcRequest, o: Outcome)
    requires t !in s.threads && s.lock.None?
    ensures var path := LonePath(s.methods, req.name, o);
      var r := Run(s, By(t, LoneActions(req, path)));
      && r.Some? && r.value.methods == s.methods && r.value.log == s.log && r.value.lock.None?
      && r.value.threads.Keys == s.threads.Keys + {t} && r.value.threads[t].Dispatch?
      && (forall u :: u in s.threads ==> r.value.threads[u] == s.threads[u])
      && r.value.threads[t].req == req
      && r.value.threads[t].stage ==
         Done(Reply(req, path), path, if path.Called? then Some(s.methods[req.name]) else None)
  {
    hide Reply, Run, By, Step;
    if req.name == "" {
      LoneEmpty(s, t, req);
    } else if req.name in s.methods {
      LoneCalled(s, t, req, o);
    } else {
      LoneUnbound(s, t, req);
    }
  }

  lemma LoneEmpty(s: State, t: Tid, req: RpcRequest)
    requires t !in s.threads && s.lock.None? && req.name == ""
    ensures Run(s, By(t, [Arrives(req), Go, Go]))
         == Some(With(s, t, Dispatch(req, Done(Reply(req, EmptyName), EmptyName, None), 0, 0), false))
  {
    hide Reply, Run, By, Step, With;
    var th := Dispatch(req, Replying(EmptyName, None), 0, 0);
    LoneStart(s, t, req);
    LoneStep(s, t, Dispatch(req, Entered, 0, 0), Go);
    LoneEnd(s, t, th);
    LoneRuns(s, t, [Arrives(req), Go, Go],
             [s, With(s, t, Dispatch(req, Entered, 0, 0), false), With(s, t, th, false),
              With(s, t, th.(stage := Done(Reply(req, EmptyName), EmptyName, None)), false)]);
  }

  lemma LoneUnbound(s: State, t: Tid, req: RpcRequest)
    requires t !in s.threads && s.lock.None? && req.name != "" && req.name !in s.methods
    ensures Run(s, By(t, [Arrives(req), Go, Go, Go, Go]))
         == Some(With(s, t, Dispatch(req, Done(Reply(req, Unbound), Unbound, None), |s.log|, 0), false))
  {
    hide Reply, Run, By, Step, With;
    var th, end := Dispatch(req, Entered, 0, 0), Dispatch(req, Replying(Unbound, None), |s.log|, 0);
    LoneStart(s, t, req);
    LoneStep(s, t, th, Go);
    LoneStep(s, t, th.(stage := WantsHas), Go);
    LoneStep(s, t, th.(stage := InHas), Go);
    LoneEnd(s, t, end);
    LoneRuns(s, t, [Arrives(req), Go, Go, Go, Go],
             [s, With(s, t, th, false), With(s, t, th.(stage := WantsHas), false),
              With(s, t, th.(stage := InHas), true), With(s, t, end, false),
              With(s, t, end.(stage := Done(Reply(req, Unbound), Unbound, None)), false)]);
  }

  lemma LoneCalled(s: State, t: Tid, req: RpcRequest, o: Outcome)
    requires t !in s.threads && s.lock.None? && req.name != "" && req.name in s.methods
    ensures var path, n := Called(o), |s.log|;
      Run(s, By(t, [Arrives(req), Go, Go, Go, Go, Go, Ends(o), Go]))
      == Some(With(s, t, Dispatch(req, Done(Reply(req, path), path, Some(s.methods[req.name])), n, n), false))
  {
    hide Reply, Run, By, Step, With;
    var n, h := |s.log|, s.methods[req.name];
    var th, found := Dispatch(req, Entered, 0, 0), Dispatch(req, WantsGet, n, 0);
    var called, end := Dispatch(req, Running(h), n, n), Dispatch(req, Replying(Called(o), Some(h)), n, n);
    LoneStart(s, t, req);
    LoneStep(s, t, th, Go);
    LoneStep(s, t, th.(stage := WantsHas), Go);
    LoneStep(s, t, th.(stage := InHas), Go);
    LoneStep(s, t, found, Go);
    LoneStep(s, t, found.(stage := InGet), Go);
    LoneStep(s, t, called, Ends(o));
    LoneEnd(s, t, end);
    LoneRuns(s, t, [Arrives(req), Go, Go, Go, Go, Go, Ends(o), Go],
             [s, With(s, t, th, false), With(s, t, th.(stage := WantsHas), false),
              With(s, t, th.(stage := InHas), true), With(s, t, found, false),
              With(s, t, found.(stage := InGet), true), With(s, t, called, false), With(s, t, end, false),
              With(s, t, end.(stage := Done(Reply(req, Called(o)), Called(o), Some(h))), false)]);
  }

  /** The state with thread `t` as given, in a lock region or not. */
  ghost function With(s: State, t: Tid, th: Thread, locked: bool): (r: State)
    ensures r.methods == s.methods && r.log == s.log && r.threads == s.threads[t := th]
    ensures r.lock == if locked then Some(t) else None
  {
    s.(threads := s.threads[t := th], lock := if locked then Some(t) else None)
  }

  lemma LoneStart(s: State, t: Tid, req: RpcRequest)
    requires t !in s.threads && s.lock.None?
    ensures Step(s, t, Arrives(req)) == Some(With(s, t, Dispatch(req, Entered, 0, 0), false))
  {}

  lemma LoneEnd(s: State, t: Tid, th: Thread)
    requires s.lock.None? && th.Dispatch? && th.stage.Replying?
    ensures Step(With(s, t, th, false), t, Go)
         == Some(With(s, t, th.(stage := Done(Reply(th.req, th.stage.path), th.stage.path, th.stage.ran)), false))
  {
    assert s.threads[t := th][t := th.(stage := Done(Reply(th.req, th.stage.path), th.stage.path, th.stage.ran))]
        == s.threads[t := th.(stage := Done(Reply(th.req, th.stage.path), th.stage.path, th.stage.ran))];
  }

  /** One step of a dispatch while no other thread has the mutex. */
  lemma LoneStep(s: State, t: Tid, th: Thread, a: Action)
    requires s.lock.None? && th.Dispatch?
    ensures var name, n := th.req.name, |s.log|;
      match th.stage
      case Entered =>
        Step(With(s, t, th, false), t, Go)
        == Some(With(s, t, th.(stage := if name == "" then Replying(EmptyName, None) else WantsHas), false))
      case WantsHas => Step(With(s, t, th, false), t, Go) == Some(With(s, t, th.(stage := InHas), true))
      case InHas =>
        Step(With(s, t, th, true), t, Go)
        == Some(With(s, t, th.(hasAt := n, stage := if name in s.methods then WantsGet else Replying(Unbound, None)),
                     false))
      case WantsGet => Step(With(s, t, th, false), t, Go) == Some(With(s, t, th.(stage := InGet), true))
      case InGet =>
        Step(With(s, t, th, true), t, Go)
        == Some(With(s, t, th.(getAt := n, stage := if name in s.methods then Running(s.methods[name])
                                                    else Replying(Gone, None)), false))
      case Running(h) =>
        a.Ends? ==>
          Step(With(s, t, th, false), t, a) == Some(With(s, t, th.(stage := Replying(Called(a.o), Some(h))), false))
      case _ => true
  {
    var s1 := With(s, t, th, Holds(th));
    var r := Step(s1, t, if th.stage.Running? then a else Go);
    if r.Some? && t in r.value.threads {
      assert s1.threads[t := r.value.threads[t]] == s.threads[t := r.value.threads[t]];
    }
  }

  lemma {:induction false} LoneRuns(s: State, t: Tid, actions: seq<Action>, states: seq<State>)
    requires |states| == |actions| + 1 && states[0] == s
    requires forall i :: 0 <= i < |actions| ==> Step(states[i], t, actions[i]) == Some(states[i + 1])
    ensures Run(s, By(t, actions)) == Some(states[|actions|])
    decreases |actions|
  {
    hide Step;
    if actions != [] {
      var a, rest := actions[0], actions[1..];
      assert Step(states[0], t, actions[0]) == Some(states[0 + 1]);
      assert actions == [a] + rest;
      ByCons(s, t, a, rest);
      LoneRuns(states[1], t, rest, states[1..]);
    }
  }

  /** Any other thread can begin at any time, and looking up or listing changes nothing. */
  lemma LookersJoin(s: State, t: Tid)
    requires t !in s.threads && s.lock.None?
    ensures Run(s, By(t, [Joins])) == Some(s.(threads := s.threads[t := Idle]))
    ensures Run(s, By(t, [Joins, Calls(Look), Go, Go])) == Some(s.(threads := s.threads[t := Idle]))
  {
    hide Run, By;
    var s1 := Step(s, t, Joins).value;
    var s2 := Step(s1, t, Calls(Look)).value;
    var s3 := Step(s2, t, Go).value;
    LoneRuns(s, t, [Joins], [s, s1]);
    assert Step(s3, t, Go).value == s1;
    LoneRuns(s, t, [Joins, Calls(Look), Go, Go], [s, s1, s2, s3, s1]);
  }

  // ---- No deadlock -----------------------------------------------------------------------

  lemma {:induction false} RunAppend(s: State, a: seq<(Tid, Action)>, b: seq<(Tid, Action)>)
    requires Run(s, a).Some?
    ensures Run(s, a + b) == Run(Run(s, a).value, b)
    decreases |a|
  {
    if a == [] {
      assert a + b == b;
    } else {
      assert (a + b)[1..] == a[1..] + b;
      RunAppend(Step(s, a[0].0, a[0].1).value, a[1..], b);
    }
  }

  lemma RunOne(s: State, t: Tid, a: Action)
    ensures Run(s, [(t, a)]) == Step(s, t, a)
  {}

  /** How many steps a dispatch is from its end, if nobody holds the lock against it. */
  function Distance(th: Thread): nat {
    if !th.Dispatch? then 0
    else match th.stage
      case Entered => 7
      case WantsHas => 6
      case InHas => 5
      case WantsGet => 4
      case InGet => 3
      case WantsOp(_, _) => 4
      case InOp(_, _) => 3
      case Running(_) => 2
      case Replying(_, _) => 1
      case Done(_, _, _) => 0
  }

  /** The same threads serve the same requests, and what has finished stays as it is. */
  ghost predicate Onward(s: State, s': State) {
    && s'.threads.Keys == s.threads.Keys
    && (forall u :: u in s.threads ==> s'.threads[u].Dispatch? == s.threads[u].Dispatch?)
    && (forall u :: u in s.threads && s.threads[u].Dispatch? ==> s'.threads[u].req == s.threads[u].req)
    && forall u :: u in s.threads && Finished(s.threads[u]) ==> s'.threads[u] == s.threads[u]
  }

  lemma HolderStep(s: State, u: Tid)
    requires u in s.threads && Holds(s.threads[u])
    ensures var s' := Step(s, u, Go);
      s'.Some? && s'.value.lock.None? && Onward(s, s'.value)
  {}

  /** The holder of the mutex can always leave its lock region. */
  lemma HolderLeaves(s: State) returns (s': State, schedule: seq<(Tid, Action)>)
    requires Inv(s)
    ensures Inv(s') && Run(s, schedule) == Some(s') && s'.lock.None? && Onward(s, s')
    ensures forall t :: t in s'.threads ==> !Holds(s'.threads[t])
  {
    hide Replay, Justified, Step, Holds;
    if s.lock.None? {
      s', schedule := s, [];
    } else {
      var u := s.lock.value;
      HolderStep(s, u);
      RunOne(s, u, Go);
      StepKeeps(s, u, Go);
      s', schedule := Step(s, u, Go).value, [(u, Go)];
    }
  }

  /** What a dispatch does next when its handler makes no more calls. */
  function Onwards(th: Thread): Action {
    if th.Dispatch? && th.stage.Running? then Ends(Returns(Leaf(Null))) else Go
  }

  lemma DispatchAdvances(s: State, t: Tid)
    requires t in s.threads && s.threads[t].Dispatch? && !Finished(s.threads[t])
    requires if Holds(s.threads[t]) then s.lock == Some(t) else s.lock.None?
    ensures var s' := Step(s, t, Onwards(s.threads[t]));
      && s'.Some? && Onward(s, s'.value) && t in s'.value.threads
      && Distance(s'.value.threads[t]) < Distance(s.threads[t])
      && (if Holds(s'.value.threads[t]) then s'.value.lock == Some(t) else s'.value.lock.None?)
  {}

  /** A dispatch whose handler is given back control, with the mutex free, can finish. */
  lemma {:induction false} DispatchFinishes(s: State, t: Tid) returns (s': State, schedule: seq<(Tid, Action)>)
    requires Inv(s) && t in s.threads && s.threads[t].Dispatch?
    requires if Holds(s.threads[t]) then s.lock == Some(t) else s.lock.None?
    ensures Inv(s') && Run(s, schedule) == Some(s') && Onward(s, s')
    ensures t in s'.threads && Finished(s'.threads[t])
    decreases Distance(s.threads[t])
  {
    hide Inv, Step, Holds, Distance;
    if Finished(s.threads[t]) {
      return s, [];
    }
    var a := Onwards(s.threads[t]);
    DispatchAdvances(s, t);
    StepKeeps(s, t, a);
    var s1 := Step(s, t, a).value;
    var rest;
    s', rest := DispatchFinishes(s1, t);
    schedule := [(t, a)] + rest;
    assert schedule[1..] == rest;
  }

  ghost function Unfinished(s: State): set<Tid> {
    set t | t in s.threads && s.threads[t].Dispatch? && !Finished(s.threads[t])
  }

  /** From every reachable state there is a schedule that finishes every dispatch: no interleaving
      reaches a deadlock. */
  lemma {:induction false} AllCanFinish(s: State) returns (s': State, schedule: seq<(Tid, Action)>)
    requires Inv(s)
    ensures Run(s, schedule) == Some(s') && Unfinished(s') == {} && Onward(s, s')
    decreases |Unfinished(s)|
  {
    hide Inv, Step;
    if Unfinished(s) == {} {
      return s, [];
    }
    var t :| t in Unfinished(s);
    var s1, c1 := HolderLeaves(s);
    if Finished(s1.threads[t]) || !s1.threads[t].Dispatch? {
      s', schedule := FinishRest(s, s1, t, c1);
    } else {
      var s2, c2 := DispatchFinishes(s1, t);
      RunAppend(s, c1, c2);
      s', schedule := FinishRest(s, s2, t, c1 + c2);
    }
  }

  lemma {:induction false} FinishRest(s: State, s1: State, t: Tid, c: seq<(Tid, Action)>)
    returns (s': State, schedule: seq<(Tid, Action)>)
    requires Inv(s1) && Run(s, c) == Some(s1) && Onward(s, s1)
    requires t in Unfinished(s) && t !in Unfinished(s1)
    ensures Run(s, schedule) == Some(s') && Unfinished(s') == {} && Onward(s, s')
    decreases |Unfinished(s)|, 0
  {
    SubsetSize(Unfinished(s1), Unfinished(s));
    var rest;
    s', rest := AllCanFinish(s1);
    RunAppend(s, c, rest);
    schedule := c + rest;
  }

  lemma NoDeadlock(s: State)
    requires Reachable(s)
    ensures exists schedule ::
      && Run(s, schedule).Some?
      && Unfinished(Run(s, schedule).value) == {}
      && Onward(s, Run(s, schedule).value)
  {
    ReachableInv(s);
    var s', schedule := AllCanFinish(s);
    assert Run(s, schedule).Some?;
  }
}
