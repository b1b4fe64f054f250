/**
 * The logic thread of S08 and S12: one consumer, any number of producers, one mutex, one condition
 * variable. The state machine has a step for every point where another thread may come between.
 */
module LogicQueue {
  import opened Bytes

  datatype Request = Request(session: nat, id: int, data: Octets)

  datatype Variant = S08 | S12

  /** Where the worker stands. It holds the mutex from `Inside` to the end of an iteration. */
  datatype Phase =
    | Outside                 // about to lock the mutex
    | Inside                  // about to evaluate the wait condition
    | Blocking                // found it false, about to release the mutex and sleep
    | Asleep
    | Woken                   // notified or woken spuriously, about to lock again
    | Ready                   // found it true, about to look at `b_stop_`
    | Dispatch(m: Request)    // inside a handler
    | Drain                   // S12: in the loop of the stop branch
    | DrainDispatch(m: Request)
    | Exited
  {
    predicate HoldsMutex() {
      !Outside? && !Asleep? && !Woken? && !Exited?
    }

    predicate InHandler() {
      Dispatch? || DrainDispatch?
    }
  }

  /** The producer inside `post_msg_to_que`, if any; it holds the mutex. */
  datatype Poster = Nobody | Entered(who: nat, m: Request) | Pushed(who: nat) | Notified(who: nat)

  /** `posted` and `taken` are histories; `ids` are the registered message ids. */
  datatype Logic = Logic(
    variant: Variant,
    ids: set<int>,
    queue: seq<Request>,
    phase: Phase,
    poster: Poster,
    stop: bool,
    stopNotified: bool,
    posted: seq<Request>,
    taken: seq<Request>)
  {
    predicate MutexFree() {
      poster.Nobody? && !phase.HoldsMutex()
    }

    predicate WaitOver() {
      queue != [] || (variant.S12? && stop)
    }

    function Notify(): Logic {
      if phase.Asleep? then this.(phase := Woken) else this
    }

    function Pop(next: Phase): Logic
      requires queue != []
    {
      this.(queue := queue[1..], taken := taken + [queue[0]], phase := next)
    }

    /** The body of the loop after the wait: S12 pops after the handler, S08 before it. */
    function Look(): Logic
      requires phase.Ready? && (stop || queue != [])
    {
      if stop then this.(phase := if variant.S12? then Drain else Exited)
      else
        var m := queue[0];
        if m.id !in ids then Pop(Outside)
        else if variant.S12? then this.(phase := Dispatch(m))
        else Pop(Dispatch(m))
    }

    function DrainOne(): Logic
      requires phase.Drain?
    {
      if queue == [] then this.(phase := Exited)
      else if queue[0].id !in ids then Pop(Drain)
      else this.(phase := DrainDispatch(queue[0]))
    }
  }

  datatype Step =
    | Lock | Test | Sleep | Wakeup | Look | Return | DrainOne | DrainReturn
    | PostEnter(who: nat, m: Request) | PostPush | PostNotify | PostLeave
    | SetStop | StopNotify

  predicate Enabled(l: Logic, st: Step) {
    match st
    case Lock => (l.phase.Outside? || l.phase.Woken?) && l.MutexFree()
    case Test => l.phase.Inside?
    case Sleep => l.phase.Blocking?
    case Wakeup => l.phase.Asleep?
    case Look => l.phase.Ready? && (l.stop || l.queue != [])
    case Return => l.phase.Dispatch? && (l.variant.S12? ==> l.queue != [])
    case DrainOne => l.phase.Drain?
    case DrainReturn => l.phase.DrainDispatch? && l.queue != []
    case PostEnter(_, _) => l.MutexFree()
    case PostPush => l.poster.Entered?
    case PostNotify => l.poster.Pushed?
    case PostLeave => l.poster.Notified?
    case SetStop => !l.stop
    case StopNotify => l.stop && !l.stopNotified
  }

  function Next(l: Logic, st: Step): Logic
    requires Enabled(l, st)
  {
    match st
    case Lock => l.(phase := Inside)
    case Test => l.(phase := if l.WaitOver() then Ready else Blocking)
    case Sleep => l.(phase := Asleep)
    case Wakeup => l.(phase := Woken)
    case Look => l.Look()
    case Return => if l.variant.S12? then l.Pop(Outside) else l.(phase := Outside)
    case DrainOne => l.DrainOne()
    case DrainReturn => l.Pop(Drain)
    case PostEnter(p, m) => l.(poster := Entered(p, m))
    case PostPush =>
      l.(queue := l.queue + [l.poster.m], posted := l.posted + [l.poster.m], poster := Pushed(l.poster.who))
    case PostNotify =>
      var n := if |l.queue| == 1 || (l.variant.S12? && |l.queue| >= 1) then l.Notify() else l;
      n.(poster := Notified(l.poster.who))
    case PostLeave => l.(poster := Nobody)
    case SetStop => l.(stop := true)
    case StopNotify => l.Notify().(stopNotified := true)
  }

  predicate Legal(l: Logic, sts: seq<Step>)
    decreases |sts|
  {
    sts != [] ==> Enabled(l, sts[0]) && Legal(Next(l, sts[0]), sts[1..])
  }

  function Run(l: Logic, sts: seq<Step>): Logic
    requires Legal(l, sts)
    decreases |sts|
  {
    if sts == [] then l else Run(Next(l, sts[0]), sts[1..])
  }

  function Begin(variant: Variant, ids: set<int>): Logic {
    Logic(variant, ids, [], Outside, Nobody, false, false, [], [])
  }

  ghost predicate Inv(l: Logic) {
    && l.taken + l.queue == l.posted
    && (l.phase.HoldsMutex() ==> l.poster.Nobody?)
    // No lost wakeup: while the worker sleeps, what is queued is about to be announced.
    && (l.phase.Asleep? && l.queue != [] ==> l.poster.Pushed? && |l.queue| == 1)
    && (l.poster.Pushed? ==> l.queue != [])
    && (l.phase.Blocking? ==> l.queue == [])
    && (l.phase.Ready? ==> l.WaitOver())
    && (l.phase.Dispatch? ==>
          l.phase.m.id in l.ids && if l.variant.S12? then l.queue != [] && l.queue[0] == l.phase.m
                                   else l.taken != [] && l.taken[|l.taken| - 1] == l.phase.m)
    && (l.phase.DrainDispatch? ==> l.phase.m.id in l.ids && l.queue != [] && l.queue[0] == l.phase.m)
    && (l.phase.Drain? || l.phase.DrainDispatch? ==> l.stop && l.variant.S12?)
    && (l.phase.Exited? ==> l.stop)
    && (l.stopNotified ==> l.stop)
  }

  lemma StepInv(l: Logic, st: Step)
    requires Inv(l) && Enabled(l, st)
    ensures Inv(Next(l, st))
  {
    if l.queue != [] {
      assert l.taken + [l.queue[0]] + l.queue[1..] == l.taken + l.queue;
    }
  }

  lemma {:induction false} RunInv(l: Logic, sts: seq<Step>)
    requires Inv(l) && Legal(l, sts)
    ensures Inv(Run(l, sts))
    decreases |sts|
  {
    if sts != [] {
      StepInv(l, sts[0]);
      RunInv(Next(l, sts[0]), sts[1..]);
    }
  }

  /**
   * In every reachable state, and for either rule of notification: the messages taken are the
   * first ones posted, in order, and the rest is queued; and a worker asleep, with nobody about to
   * notify it, means an empty queue.
   */
  lemma ConservationAndNoLostWakeup(variant: Variant, ids: set<int>, sts: seq<Step>)
    requires Legal(Begin(variant, ids), sts)
    ensures var l := Run(Begin(variant, ids), sts);
            && l.taken + l.queue == l.posted
            && (l.phase.Asleep? && !l.poster.Pushed? ==> l.queue == [])
  {
    RunInv(Begin(variant, ids), sts);
  }

  /**
   * The S12 worker leaves its loop only when everything posted has been taken. The S08 worker, whose
   * stop branch drains "while empty", leaves its loop only while something is still queued.
   */
  lemma ExitDrains(l: Logic, st: Step)
    requires Inv(l) && Enabled(l, st) && !l.phase.Exited? && Next(l, st).phase.Exited?
    ensures var n := Next(l, st);
            && (l.variant.S12? ==> n.queue == [] && n.taken == n.posted)
            && (l.variant.S08? ==> n.queue != [] && n.taken < n.posted)
  {
    assert l.taken + [] == l.taken;
  }

  /** The S08 exit does happen, and leaves a posted message unhandled. */
  lemma StopBranchSkipsTheQueue(ids: set<int>, m: Request)
    ensures var sts := [PostEnter(0, m), PostPush, PostNotify, PostLeave, SetStop, Lock, Test, Look];
            var b := Begin(S08, ids);
            && Legal(b, sts)
            && Run(b, sts) == b.(queue := [m], phase := Exited, stop := true, posted := [m])
  {
    var b := Begin(S08, ids);
    var posting := [PostEnter(0, m), PostPush, PostNotify, PostLeave];
    var stopping := [SetStop, Lock, Test, Look];
    PosterRun(b, 0, m);
    var l := Run(b, posting);
    assert Legal(l, stopping) && Run(l, stopping) == l.(phase := Exited, stop := true);
    RunTwice(b, posting, stopping);
    assert posting + stopping == [PostEnter(0, m), PostPush, PostNotify, PostLeave, SetStop, Lock, Test, Look];
  }

  /**
   * Stopped or not, an S08 worker with nothing queued and nothing more posted never leaves its loop:
   * its wait looks only at the queue.
   */
  lemma {:induction false} NoExitWhileEmpty(l: Logic, sts: seq<Step>)
    requires Inv(l) && l.variant.S08? && l.queue == [] && !l.poster.Entered? && !l.phase.Exited?
    requires Legal(l, sts) && forall i :: 0 <= i < |sts| ==> !sts[i].PostEnter?
    ensures Run(l, sts).queue == [] && !Run(l, sts).phase.Exited?
    decreases |sts|
  {
    if sts != [] {
      var n := Next(l, sts[0]);
      StepInv(l, sts[0]);
      assert n.queue == [] && !n.poster.Entered? && !n.phase.Exited?;
      assert forall i :: 0 < i < |sts| ==> sts[i] == sts[1..][i - 1];
      NoExitWhileEmpty(n, sts[1..]);
    }
  }

  /** The worker can still act on the stop: it is past sleeping, or awake. */
  predicate StopWillBeSeen(l: Logic) {
    l.variant.S12? && l.stop && l.stopNotified && !l.phase.Asleep? && !l.phase.Blocking?
  }

  lemma {:induction false} NeverSleepsAgain(l: Logic, sts: seq<Step>)
    requires StopWillBeSeen(l) && Legal(l, sts)
    ensures StopWillBeSeen(Run(l, sts))
    decreases |sts|
  {
    if sts != [] {
      NeverSleepsAgain(Next(l, sts[0]), sts[1..]);
    }
  }

  /** The steps of the worker itself, spurious wakeups apart. */
  predicate WorkerStep(st: Step) {
    st.Lock? || st.Test? || st.Sleep? || st.Look? || st.Return? || st.DrainOne? || st.DrainReturn?
  }

  /** A bound on the worker's own steps until it sleeps or exits, if nothing is posted. */
  function Work(l: Logic): nat {
    4 * |l.queue| +
    match l.phase
    case Outside => 4
    case Woken => 4
    case Inside => 3
    case Ready => 2
    case Blocking => 1
    case Drain => 1
    case Dispatch(_) => 1
    case _ => 0
  }

  lemma WorkDecreases(l: Logic, st: Step)
    requires Inv(l) && l.variant.S12? && Enabled(l, st) && WorkerStep(st)
    ensures Work(Next(l, st)) < Work(l)
    ensures Next(l, st).posted == l.posted && Next(l, st).poster == l.poster
  {
  }

  /** The worker's next step, if the mutex is free or its own. */
  function WorkerNext(l: Logic): Step
  {
    match l.phase
    case Inside => Test
    case Blocking => Sleep
    case Ready => Look
    case Dispatch(_) => Return
    case Drain => DrainOne
    case DrainDispatch(_) => DrainReturn
    case _ => Lock
  }

  lemma WorkerMoves(l: Logic)
    requires Inv(l) && l.poster.Nobody?
    ensures (exists st :: WorkerStep(st) && Enabled(l, st)) <==> !l.phase.Exited? && !l.phase.Asleep?
    ensures !l.phase.Exited? && !l.phase.Asleep? ==> WorkerStep(WorkerNext(l)) && Enabled(l, WorkerNext(l))
  {
    var st := WorkerNext(l);
    assert !l.phase.Exited? && !l.phase.Asleep? ==> WorkerStep(st) && Enabled(l, st);
  }

  /**
   * Once the stop will be seen and nothing more is posted, the worker takes a bounded number of steps,
   * has a next one until it exits, and exits with everything handled.
   */
  lemma {:induction false} StopBoundsTheWorker(l: Logic, sts: seq<Step>)
    requires Inv(l) && StopWillBeSeen(l) && l.poster.Nobody? && Legal(l, sts)
    requires forall i :: 0 <= i < |sts| ==> WorkerStep(sts[i])
    ensures var n := Run(l, sts);
            && |sts| + Work(n) <= Work(l)
            && ((exists st :: WorkerStep(st) && Enabled(n, st)) <==> !n.phase.Exited?)
            && (n.phase.Exited? && !l.phase.Exited? ==> n.queue == [] && n.taken == l.posted)
    decreases |sts|
  {
    hide Inv, Work;
    if sts == [] {
      WorkerMoves(l);
    } else {
      var n := Next(l, sts[0]);
      StepInv(l, sts[0]);
      WorkDecreases(l, sts[0]);
      NeverSleepsAgain(l, [sts[0]]);
      EmptyRun(n);
      assert Legal(l, [sts[0]]) && Run(l, [sts[0]]) == n;
      assert forall i :: 0 < i < |sts| ==> sts[i] == sts[1..][i - 1];
      StopBoundsTheWorker(n, sts[1..]);
      if n.phase.Exited? && !l.phase.Exited? {
        ExitDrains(l, sts[0]);
        ExitIsFinal(n, sts[1..]);
      }
    }
  }

  lemma ExitIsFinal(l: Logic, sts: seq<Step>)
    requires l.phase.Exited? && Legal(l, sts) && forall i :: 0 <= i < |sts| ==> WorkerStep(sts[i])
    ensures sts == []
  {
  }

  /** So it does exit: here are its steps. */
  lemma {:induction false} StopLeadsToExit(l: Logic) returns (sts: seq<Step>)
    requires Inv(l) && StopWillBeSeen(l) && l.poster.Nobody? && !l.phase.Exited?
    ensures Legal(l, sts) && (forall i :: 0 <= i < |sts| ==> WorkerStep(sts[i])) && |sts| <= Work(l)
    ensures var n := Run(l, sts); n.phase.Exited? && n.queue == [] && n.taken == l.posted
    decreases Work(l)
  {
    hide Inv, Work;
    WorkerMoves(l);
    var st := WorkerNext(l);
    var n := Next(l, st);
    StepInv(l, st);
    WorkDecreases(l, st);
    if n.phase.Exited? {
      ExitDrains(l, st);
      sts := [st];
      EmptyRun(n);
    } else {
      NeverSleepsAgain(l, [st]);
      EmptyRun(n);
      assert Legal(l, [st]) && Run(l, [st]) == n;
      var rest := StopLeadsToExit(n);
      sts := [st] + rest;
      assert sts[1..] == rest;
    }
  }

  /**
   * `b_stop_` is set and announced without the mutex, so the announcement can be lost. It is lost
   * exactly when it comes while the worker stands between finding its condition false and sleeping;
   * otherwise the worker never sleeps again.
   */
  lemma StopAnnouncement(l: Logic, sts: seq<Step>)
    requires Inv(l) && l.variant.S12? && Enabled(l, StopNotify)
    ensures var n := Next(l, StopNotify);
            && (!l.phase.Blocking? && Legal(n, sts) ==> !Run(n, sts).phase.Asleep?)
            && (l.phase.Blocking? ==> Enabled(n, Sleep) && Next(n, Sleep).phase.Asleep? && n.queue == [])
  {
    var n := Next(l, StopNotify);
    if !l.phase.Blocking? && Legal(n, sts) {
      NeverSleepsAgain(n, sts);
    }
  }

  /** The loss can happen from the start: the worker then sleeps with the stop set and announced. */
  lemma StopCanBeLost(ids: set<int>)
    ensures var sts := [Lock, Test, SetStop, StopNotify, Sleep];
            var b := Begin(S12, ids);
            Legal(b, sts) && Run(b, sts) == b.(phase := Asleep, stop := true, stopNotified := true)
  {
  }

  lemma EmptyRun(l: Logic)
    ensures Legal(l, []) && Run(l, []) == l
  {
  }

  lemma {:induction false} RunAppend(l: Logic, a: seq<Step>, st: Step)
    requires Legal(l, a) && Enabled(Run(l, a), st)
    ensures Legal(l, a + [st]) && Run(l, a + [st]) == Next(Run(l, a), st)
    decreases |a|
  {
    if a == [] {
      var n := Next(l, st);
      assert (a + [st])[1..] == [] && Legal(n, []) && Run(n, []) == n;
    } else {
      RunAppend(Next(l, a[0]), a[1..], st);
      assert (a + [st])[1..] == a[1..] + [st];
    }
  }

  lemma {:induction false} RunTwice(l: Logic, a: seq<Step>, b: seq<Step>)
    requires Legal(l, a) && Legal(Run(l, a), b)
    ensures Legal(l, a + b) && Run(l, a + b) == Run(Run(l, a), b)
    decreases |a|
  {
    if a == [] {
      assert a + b == b;
    } else {
      assert (a + b)[1..] == a[1..] + b;
      RunTwice(Next(l, a[0]), a[1..], b);
    }
  }

  /** A producer's four steps, run without a break. S08 notifies only for the first message. */
  lemma PosterRun(l: Logic, who: nat, m: Request)
    requires l.MutexFree() && (l.variant.S12? || l.queue == [])
    ensures var sts := [PostEnter(who, m), PostPush, PostNotify, PostLeave];
            && Legal(l, sts)
            && Run(l, sts) == l.(queue := l.queue + [m], posted := l.posted + [m],
                                 phase := if l.phase.Asleep? then Woken else l.phase)
  {
    var s1, s2, s3 := PostEnter(who, m), PostPush, PostNotify;
    hide Run, Legal;
    EmptyRun(l);
    RunAppend(l, [], s1);
    assert [] + [s1] == [s1];
    RunAppend(l, [s1], s2);
    assert [s1] + [s2] == [s1, s2];
    RunAppend(l, [s1, s2], s3);
    assert [s1, s2] + [s3] == [s1, s2, s3];
    RunAppend(l, [s1, s2, s3], PostLeave);
    assert [s1, s2, s3] + [PostLeave] == [s1, s2, s3, PostLeave];
  }

  /** The requests among `ms` for which a handler is called. */
  function Registered(ids: set<int>, ms: seq<Request>): (rs: seq<Request>)
    ensures forall r :: r in rs <==> r in ms && r.id in ids
  {
    if ms == [] then []
    else
      var last := ms[|ms| - 1];
      Registered(ids, ms[..|ms| - 1]) + (if last.id in ids then [last] else [])
  }

  lemma RegisteredSnoc(ids: set<int>, ms: seq<Request>, m: Request)
    ensures Registered(ids, ms + [m]) == Registered(ids, ms) + (if m.id in ids then [m] else [])
  {
    assert (ms + [m])[..|ms|] == ms;
  }

  // ---------------------------------------------------------------- the history, from the run alone

  /** The messages for which a handler is entered in a run, in that order. */
  function Dispatched(l: Logic, sts: seq<Step>): seq<Request>
    requires Legal(l, sts)
    decreases |sts|
  {
    if sts == [] then []
    else
      var n := Next(l, sts[0]);
      (if n.phase.InHandler() && !l.phase.InHandler() then [n.phase.m] else []) + Dispatched(n, sts[1..])
  }

  /** The messages that producers bring to the queue in a run, in the order of entering the mutex. */
  function Brought(sts: seq<Step>): seq<Request>
    decreases |sts|
  {
    if sts == [] then [] else (if sts[0].PostEnter? then [sts[0].m] else []) + Brought(sts[1..])
  }

  /** What handlers have been entered for. S12 takes a message only when its handler is through. */
  function Handled(l: Logic): seq<Request> {
    Registered(l.ids, l.taken) + (if l.variant.S12? && l.phase.InHandler() then [l.phase.m] else [])
  }

  function Entering(p: Poster): seq<Request> {
    if p.Entered? then [p.m] else []
  }

  lemma HandledStep(l: Logic, st: Step)
    requires Inv(l) && Enabled(l, st)
    ensures var n := Next(l, st);
            && n.ids == l.ids && n.variant == l.variant
            && Handled(n) == Handled(l) + (if n.phase.InHandler() && !l.phase.InHandler() then [n.phase.m] else [])
  {
    var n := Next(l, st);
    TakenStep(l, st);
    if n.taken != l.taken {
      RegisteredSnoc(l.ids, l.taken, l.queue[0]);
    }
    hide Registered, Next, Enabled;
    var r := Registered(l.ids, l.taken);
    assert r + [] == r;
  }

  /** A step takes nothing, or the front; and how that goes with entering and leaving a handler. */
  lemma TakenStep(l: Logic, st: Step)
    requires Inv(l) && Enabled(l, st)
    ensures var n := Next(l, st);
            var entered := n.phase.InHandler() && !l.phase.InHandler();
            var left := l.phase.InHandler() && !n.phase.InHandler();
            && n.ids == l.ids && n.variant == l.variant
            && (n.taken != l.taken ==> l.queue != [] && n.taken == l.taken + [l.queue[0]])
            && (l.phase.InHandler() && n.phase.InHandler() ==> n.phase == l.phase && n.taken == l.taken)
            && (entered ==> l.queue != [] && n.phase.m == l.queue[0] && n.phase.m.id in l.ids)
            && (entered ==> (l.variant.S08? <==> n.taken != l.taken))
            && (left ==> (l.variant.S12? <==> n.taken != l.taken))
            && (left && l.variant.S12? ==> l.phase.m == l.queue[0] && l.phase.m.id in l.ids)
            && (!entered && !left && n.taken != l.taken ==> l.queue[0].id !in l.ids)
  {
  }

  lemma BroughtStep(l: Logic, st: Step)
    requires Enabled(l, st)
    ensures var n := Next(l, st);
            && n.posted + Entering(n.poster)
            == l.posted + Entering(l.poster) + (if st.PostEnter? then [st.m] else [])
  {
  }

  lemma {:induction false} HandledRun(l: Logic, sts: seq<Step>)
    requires Inv(l) && Legal(l, sts)
    ensures Handled(Run(l, sts)) == Handled(l) + Dispatched(l, sts)
    decreases |sts|
  {
    hide Inv, Handled, Next, Enabled;
    if sts != [] {
      HandledStep(l, sts[0]);
      StepInv(l, sts[0]);
      HandledRun(Next(l, sts[0]), sts[1..]);
    }
  }

  lemma {:induction false} BroughtRun(l: Logic, sts: seq<Step>)
    requires Legal(l, sts)
    ensures var n := Run(l, sts);
            n.posted + Entering(n.poster) == l.posted + Entering(l.poster) + Brought(sts)
    decreases |sts|
  {
    hide Entering, Next, Enabled;
    if sts != [] {
      BroughtStep(l, sts[0]);
      BroughtRun(Next(l, sts[0]), sts[1..]);
    }
  }

  /**
   * Over every run: the messages posted are those that producers brought, in the order in which they
   * got the mutex; and a handler has been entered for exactly the messages taken that have a registered
   * id, in order, and in S12 for the front while it is being handled.
   */
  lemma HandlersAreCalled(variant: Variant, ids: set<int>, sts: seq<Step>)
    requires Legal(Begin(variant, ids), sts)
    ensures var l := Run(Begin(variant, ids), sts);
            && l.posted + Entering(l.poster) == Brought(sts)
            && Dispatched(Begin(variant, ids), sts)
            == Registered(ids, l.taken) + (if variant.S12? && l.phase.InHandler() then [l.phase.m] else [])
  {
    var b := Begin(variant, ids);
    HandledRun(b, sts);
    BroughtRun(b, sts);
    KeepsItsKind(b, sts);
    assert Handled(b) == [] && b.posted + Entering(b.poster) == [];
    hide Run, Legal, Registered, Dispatched, Brought;
    assert [] + Dispatched(b, sts) == Dispatched(b, sts) && [] + Brought(sts) == Brought(sts);
  }

  lemma {:induction false} KeepsItsKind(l: Logic, sts: seq<Step>)
    requires Legal(l, sts)
    ensures Run(l, sts).variant == l.variant && Run(l, sts).ids == l.ids
    decreases |sts|
  {
    if sts != [] {
      KeepsItsKind(Next(l, sts[0]), sts[1..]);
    }
  }

  /**
   * Why S08 may notify for the first message only: in every reachable state a notification for any
   * other message would find nobody asleep.
   */
  lemma NotifyingTheFirstSuffices(l: Logic)
    requires Inv(l) && Enabled(l, PostNotify)
    ensures Next(l, PostNotify) == l.Notify().(poster := Notified(l.poster.who))
  {
  }

  /** The S12 object: `post_msg_to_que`, and one turn of `deal_msg_` once its wait is over. */
  class LogicSystem {
    const ids: set<int>
    var msgQue: seq<Request>
    var stop: bool
    ghost var posted: seq<Request>
    ghost var taken: seq<Request>
    /** Every call of a handler, in order. */
    ghost var called: seq<Request>

    ghost function View(phase: Phase): Logic
      reads this
    {
      Logic(S12, ids, msgQue, phase, Nobody, stop, false, posted, taken)
    }

    ghost predicate Valid()
      reads this
    {
      taken + msgQue == posted && called == Registered(ids, taken)
    }

    constructor (ids: set<int>)
      ensures Valid() && View(Outside) == Begin(S12, ids)
    {
      this.ids := ids;
      msgQue, stop, posted, taken, called := [], false, [], [], [];
    }

    /** Between lock and unlock: the four steps of a producer, the worker not holding the mutex. */
    method PostMsg(who: nat, m: Request, ghost phase: Phase) returns (notified: bool)
      requires Valid() && !phase.HoldsMutex()
      modifies `msgQue, `posted
      ensures Valid() && notified
      ensures var sts := [PostEnter(who, m), PostPush, PostNotify, PostLeave];
              var was := old(View(phase));
              Legal(was, sts) && View(if phase.Asleep? then Woken else phase) == Run(was, sts)
    {
      PosterRun(View(phase), who, m);
      hide Run, Legal, Registered;
      assert taken + (msgQue + [m]) == posted + [m];
      msgQue := msgQue + [m];
      notified := |msgQue| >= 1;
      posted := posted + [m];
    }

    method PopFront(known: bool)
      requires Valid() && msgQue != [] && (known <==> msgQue[0].id in ids)
      modifies `msgQue, `taken, `called
      ensures Valid() && msgQue == old(msgQue)[1..] && taken == old(taken) + [old(msgQue)[0]]
    {
      var m := msgQue[0];
      RegisteredSnoc(ids, taken, m);
      assert taken + [m] + msgQue[1..] == taken + msgQue;
      hide Registered;
      if known {
        called := called + [m];
      }
      taken := taken + [m];
      msgQue := msgQue[1..];
    }

    /**
     * One turn of the loop: handle the front, or, when stopping, everything queued. The turn is the
     * run `sts` of the state machine.
     */
    method DealMsg() returns (exit: bool, ghost sts: seq<Step>)
      requires Valid() && (msgQue != [] || stop)
      modifies `msgQue, `taken, `called
      ensures Valid() && exit == stop
      ensures exit ==> msgQue == [] && taken == posted
      ensures !exit ==> msgQue == old(msgQue)[1..] && taken == old(taken) + [old(msgQue)[0]]
      ensures var was := old(View(Ready));
              Legal(was, sts) && Run(was, sts) == View(if exit then Exited else Outside)
    {
      ghost var was := View(Ready);
      sts := [];
      if stop {
        RunAppend(was, sts, Look);
        sts := sts + [Look];
        while msgQue != []
          invariant Valid() && Legal(was, sts) && Run(was, sts) == View(Drain)
        {
          RunAppend(was, sts, DrainOne);
          sts := sts + [DrainOne];
          if msgQue[0].id !in ids {
            PopFront(false);
            continue;
          }
          RunAppend(was, sts, DrainReturn);
          sts := sts + [DrainReturn];
          PopFront(true);
        }
        RunAppend(was, sts, DrainOne);
        sts := sts + [DrainOne];
        return true, sts;
      }
      RunAppend(was, sts, Look);
      sts := sts + [Look];
      if msgQue[0].id !in ids {
        PopFront(false);
        return false, sts;
      }
      RunAppend(was, sts, Return);
      sts := sts + [Return];
      PopFront(true);
      return false, sts;
    }
  }
}
