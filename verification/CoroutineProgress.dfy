/**
 * That the S12 server does not stop short: left alone it always has a next step until nothing is
 * left to do, every such step brings it nearer to that, and then every request has been answered.
 */
module CoroutineProgress {
  import opened Bytes
  import opened CoroutineServer
  import opened CoroutineReplies
  import opened CoroutineClosing
  import F = CoroutineFrames
  import W = WriteToken
  import L = LogicQueue

  /**
   * What the server and its sockets do by themselves: everything but new connections and new bytes,
   * failures, the stop and spurious wakeups.
   */
  predicate Internal(st: Step) {
    match st
    case Logic(ls) => !ls.Wakeup? && !ls.SetStop?
    case Write(_, ws) => ws.Progress? ==> ws.n > 0
    case WriteFails(_, _, _) => false
    case CoHead(_, _) => false
    case CoBody(_, _) => false
    case CoFails(_) => false
    case Accept => false
    case _ => true
  }

  predicate AllInternal(sts: seq<Step>) {
    forall k :: 0 <= k < |sts| ==> Internal(sts[k])
  }

  // ---------------------------------------------------------------- a bound on the work left

  function FrameCost(f: Octets): nat {
    |f| + 8
  }

  function FramesCost(q: seq<Octets>): nat {
    if q == [] then 0 else FrameCost(q[0]) + FramesCost(q[1..])
  }

  /** What the front still takes, by where the right to write is. */
  function FrontCost(w: W.Writer): nat
    requires w.queue != []
  {
    match w.token
    case Nowhere => FrameCost(w.queue[0])
    case InFlight =>
      if w.flights != [] && w.flights[0].sent <= |w.queue[0]| then |w.queue[0]| - w.flights[0].sent + 5 else 0
    case AtThread(t) =>
      if t !in w.threads then 0
      else if w.threads[t].Gap? then |w.queue[0]| + 6
      else if w.threads[t].WantPop? then 4
      else 3
  }

  /** What the logic thread's own call of `send` still takes. */
  function SenderCost(w: W.Writer): nat {
    if WORKER !in w.threads then 0
    else
      match w.threads[WORKER]
      case WantSend(f) => FrameCost(f) + 2
      case InSend(f) => FrameCost(f) + 1
      case _ => 0
  }

  function WriterCost(w: W.Writer): nat {
    SenderCost(w) + if w.queue == [] then 0 else FrontCost(w) + FramesCost(w.queue[1..])
  }

  function RequestCost(cfg: Config, id: int, data: Octets): nat {
    FrameCost(AnswerFrame(cfg, F.Message(id, data))) + 3
  }

  function RequestsCost(cfg: Config, q: seq<L.Request>): nat {
    if q == [] then 0 else RequestCost(cfg, q[0].id, q[0].data) + RequestsCost(cfg, q[1..])
  }

  /** The answers still to be sent. The front's own is on its way once the handler has called `send`. */
  function PendingCost(cfg: Config, q: seq<L.Request>, sending: Sending): nat {
    if q == [] then 0
    else (if sending.Idle? then RequestCost(cfg, q[0].id, q[0].data) else 0) + RequestsCost(cfg, q[1..])
  }

  function PosterCost(p: L.Poster): nat {
    match p
    case Nobody => 0
    case Entered(_, _) => 7
    case Pushed(_) => 6
    case Notified(_) => 1
  }

  function LogicCost(cfg: Config, l: L.Logic, sending: Sending): nat {
    L.Work(l) + PendingCost(cfg, l.queue, sending) + PosterCost(l.poster) + if l.stopNotified then 0 else 5
  }

  function CoCost(cfg: Config, co: Co): nat {
    match co
    case Check => 1
    case PostWant(m) => 20 + RequestCost(cfg, m.id, m.data)
    case Posting(m, pushed) => if pushed then 2 else 7 + RequestCost(cfg, m.id, m.data)
    case _ => 0
  }

  function SessionCost(cfg: Config, x: Session): nat {
    CoCost(cfg, x.co) + WriterCost(x.writer)
  }

  function SessionsCost(cfg: Config, xs: seq<Session>): nat {
    if xs == [] then 0 else SessionCost(cfg, xs[0]) + SessionsCost(cfg, xs[1..])
  }

  function MutexCost(s: Server): nat {
    2 * |s.waiting| + if s.holder.Some? then 1 else 0
  }

  /** A bound on the internal steps still to come. */
  function Measure(cfg: Config, s: Server): nat {
    LogicCost(cfg, s.logic, s.sending) + SessionsCost(cfg, s.sessions) + MutexCost(s)
  }

  lemma {:induction false} FramesCostSnoc(q: seq<Octets>, f: Octets)
    ensures FramesCost(q + [f]) == FramesCost(q) + FrameCost(f)
    decreases |q|
  {
    if q == [] {
      assert [f][1..] == [] && q + [f] == [f];
    } else {
      assert (q + [f])[1..] == q[1..] + [f];
      FramesCostSnoc(q[1..], f);
    }
  }

  lemma {:induction false} RequestsCostSnoc(cfg: Config, q: seq<L.Request>, r: L.Request)
    ensures RequestsCost(cfg, q + [r]) == RequestsCost(cfg, q) + RequestCost(cfg, r.id, r.data)
    decreases |q|
  {
    hide RequestCost;
    if q == [] {
      assert [r][1..] == [] && q + [r] == [r];
    } else {
      assert (q + [r])[1..] == q[1..] + [r];
      RequestsCostSnoc(cfg, q[1..], r);
    }
  }

  lemma {:induction false} SessionsCostUpdate(cfg: Config, xs: seq<Session>, i: nat, y: Session)
    requires i < |xs|
    ensures SessionsCost(cfg, xs[i := y]) == SessionsCost(cfg, xs) - SessionCost(cfg, xs[i]) + SessionCost(cfg, y)
    decreases |xs|
  {
    hide SessionCost;
    if i == 0 {
      assert xs[0 := y][1..] == xs[1..];
    } else {
      assert xs[i := y][1..] == xs[1..][i - 1 := y];
      SessionsCostUpdate(cfg, xs[1..], i - 1, y);
    }
  }

  // ---------------------------------------------------------------- every step lessens it

  /** Only the logic thread sends, and no completion bears its name. */
  predicate WorkerSends(w: W.Writer) {
    forall t :: t in w.threads && (w.threads[t].WantSend? || w.threads[t].InSend?) ==> t == WORKER
  }

  lemma LeaveSendCost(w: W.Writer, f: Octets)
    requires W.Inv(w) && WORKER in w.threads && w.threads[WORKER] == W.InSend(f)
    ensures WriterCost(w.LeaveSend(WORKER, f)) < WriterCost(w)
  {
    hide Flatten, Subsequence;
    if w.queue != [] {
      assert w.token != W.AtThread(WORKER);
      FramesCostSnoc(w.queue[1..], f);
      assert (w.queue + [f])[1..] == w.queue[1..] + [f];
    } else {
      assert (w.queue + [f])[1..] == [];
    }
  }

  lemma LeavePopCost(w: W.Writer, t: W.Tid)
    requires W.Inv(w) && t in w.threads && w.threads[t].InPop? && w.queue != []
    ensures WriterCost(w.LeavePop(t)) < WriterCost(w)
  {
    hide Flatten, Subsequence;
    assert w.token == W.AtThread(t);
  }

  lemma OtherWriteCost(w: W.Writer, ws: W.Step)
    requires W.Inv(w) && WorkerSends(w) && W.Enabled(w, ws)
    requires ws.Acquire? || ws.Issue? || ws.Complete? || (ws.Progress? && ws.n > 0)
    requires ws.Complete? ==> ws.t != WORKER
    ensures WriterCost(W.Next(w, ws)) < WriterCost(w)
  {
    hide FramesCost, Flatten, Subsequence;
    assert w.flights == [] || w.token.InFlight?;
  }

  lemma WriteLessens(w: W.Writer, ws: W.Step)
    requires W.Inv(w) && WorkerSends(w) && W.Enabled(w, ws)
    requires !ws.Begin? && !ws.Fail? && (ws.Progress? ==> ws.n > 0) && (ws.Complete? ==> ws.t != WORKER)
    ensures WriterCost(W.Next(w, ws)) < WriterCost(w)
  {
    hide W.Inv, WriterCost;
    if ws.Leave? {
      if w.threads[ws.t].InSend? {
        LeaveSendCost(w, w.threads[WORKER].f);
      } else {
        LeavePopCost(w, ws.t);
      }
    } else {
      OtherWriteCost(w, ws);
    }
  }

  /** The logic thread's steps, and the announcement of the stop. */
  lemma LogicLessens(cfg: Config, s: Server, ls: L.Step)
    requires Inv(cfg, s) && Enabled(cfg, s, Logic(ls)) && Internal(Logic(ls))
    ensures LogicCost(cfg, L.Next(s.logic, ls), s.sending) < LogicCost(cfg, s.logic, s.sending)
  {
    hide SessionInv, RequestCost;
    if ls.StopNotify? {
      assert L.Work(L.Next(s.logic, ls)) <= L.Work(s.logic) + 4;
    } else {
      L.WorkDecreases(s.logic, ls);
    }
  }

  lemma ReturnLessens(cfg: Config, s: Server)
    requires Inv(cfg, s) && Enabled(cfg, s, HandlerReturn)
    ensures var n := Next(cfg, s, HandlerReturn);
            LogicCost(cfg, n.logic, n.sending) < LogicCost(cfg, s.logic, s.sending)
  {
    hide SessionInv, RequestCost;
    L.WorkDecreases(s.logic, if s.logic.phase.Dispatch? then L.Return else L.DrainReturn);
  }

  /** The costs that change when a step concerns the logic thread and one session. */
  lemma OneSession(cfg: Config, s: Server, n: Server, i: nat)
    requires i < |s.sessions| && |n.sessions| == |s.sessions| && n.sessions == s.sessions[i := n.sessions[i]]
    requires LogicCost(cfg, n.logic, n.sending) + SessionCost(cfg, n.sessions[i]) + MutexCost(n)
           < LogicCost(cfg, s.logic, s.sending) + SessionCost(cfg, s.sessions[i]) + MutexCost(s)
    ensures Measure(cfg, n) < Measure(cfg, s)
  {
    hide LogicCost, SessionCost, MutexCost;
    SessionsCostUpdate(cfg, s.sessions, i, n.sessions[i]);
  }

  lemma BeginCost(w: W.Writer, f: Octets)
    requires W.Inv(w) && WORKER !in w.threads
    ensures WriterCost(W.Next(w, W.Begin(WORKER, f))) == WriterCost(w) + FrameCost(f) + 2
  {
    hide FramesCost, Flatten, Subsequence;
  }

  lemma CallLessens(cfg: Config, s: Server)
    requires Inv(cfg, s) && Enabled(cfg, s, HandlerCall)
    ensures Measure(cfg, Next(cfg, s, HandlerCall)) < Measure(cfg, s)
  {
    var r := s.logic.phase.m;
    var n := Next(cfg, s, HandlerCall);
    assert s.logic.queue[0] == r;
    assert SessionInv(cfg, s.logic, s.sending, r.session, s.sessions[r.session]);
    BeginCost(s.sessions[r.session].writer, AnswerFrame(cfg, F.Message(r.id, r.data)));
    hide Inv, SessionInv, AnswerFrame, FrameCost, WriterCost, W.Next;
    OneSession(cfg, s, n, r.session);
  }

  /** What a producer's step does to the logic thread's work. */
  lemma PosterWork(l: L.Logic)
    requires !l.poster.Nobody?
    ensures L.Enabled(l, PosterStep(l))
    ensures var m := L.Next(l, PosterStep(l));
            && m.queue == (if l.poster.Entered? then l.queue + [l.poster.m] else l.queue)
            && m.stopNotified == l.stopNotified
            && L.Work(m) <= L.Work(l) + (if l.poster.Notified? then 0 else 4)
            && PosterCost(m.poster) == PosterCost(l.poster) - (if l.poster.Pushed? then 5 else 1)
  {
  }

  lemma PostCost(cfg: Config, l: L.Logic, sending: Sending, i: nat, x: Session)
    requires PosterInv(l.poster, i, x) && x.co.Posting?
    ensures L.Enabled(l, PosterStep(l))
    ensures var m := L.Next(l, PosterStep(l));
            && LogicCost(cfg, m, sending) + CoCost(cfg, AfterPostStep(l.poster, x).co)
             < LogicCost(cfg, l, sending) + CoCost(cfg, x.co)
  {
    PosterWork(l);
    hide RequestCost, PendingCost, L.Work, L.Next, PosterCost;
    if l.poster.Entered? {
      PushCost(cfg, l.queue, l.poster.m, sending);
    }
  }

  lemma PushCost(cfg: Config, q: seq<L.Request>, r: L.Request, sending: Sending)
    ensures PendingCost(cfg, q + [r], sending) <= PendingCost(cfg, q, sending) + RequestCost(cfg, r.id, r.data)
  {
    hide RequestCost;
    if q != [] {
      assert (q + [r])[1..] == q[1..] + [r];
      RequestsCostSnoc(cfg, q[1..], r);
    }
  }

  lemma PostLessens(cfg: Config, s: Server, i: nat)
    requires Inv(cfg, s) && Enabled(cfg, s, PostStep(i))
    ensures Measure(cfg, Next(cfg, s, PostStep(i))) < Measure(cfg, s)
  {
    var x := s.sessions[i];
    assert SessionInv(cfg, s.logic, s.sending, i, x);
    PosterEffect(s.logic);
    PostStepOwn(cfg, s.logic, L.Next(s.logic, PosterStep(s.logic)), s.sending, i, x);
    PostStepLogic(cfg, s, i);
    assert PosterInv(s.logic.poster, i, x);
    PostCost(cfg, s.logic, s.sending, i, x);
    hide Inv, SessionInv, Next, Enabled, L.Next, CoCost, WriterCost, LogicCost;
    OneSession(cfg, s, Next(cfg, s, PostStep(i)), i);
  }

  lemma EnterLessens(cfg: Config, s: Server, i: nat)
    requires Enabled(cfg, s, PostEnter(i))
    ensures Measure(cfg, Next(cfg, s, PostEnter(i))) < Measure(cfg, s)
  {
    hide RequestCost, PendingCost, WriterCost;
    OneSession(cfg, s, Next(cfg, s, PostEnter(i)), i);
  }

  lemma CheckLessens(cfg: Config, s: Server, i: nat)
    requires Enabled(cfg, s, CoCheck(i))
    ensures Measure(cfg, Next(cfg, s, CoCheck(i))) < Measure(cfg, s)
  {
    hide LogicCost, WriterCost;
    OneSession(cfg, s, Next(cfg, s, CoCheck(i)), i);
  }

  lemma SendLessens(cfg: Config, s: Server, i: nat, ws: W.Step)
    requires Inv(cfg, s) && Enabled(cfg, s, Write(i, ws)) && Internal(Write(i, ws))
    ensures Measure(cfg, Next(cfg, s, Write(i, ws))) < Measure(cfg, s)
  {
    var x, n := s.sessions[i], Next(cfg, s, Write(i, ws));
    assert SessionInv(cfg, s.logic, s.sending, i, x);
    WriteLessens(x.writer, ws);
    assert LogicCost(cfg, n.logic, n.sending) == LogicCost(cfg, s.logic, s.sending);
    hide Inv, SessionInv, LogicCost, WriterCost, W.Next;
    OneSession(cfg, s, n, i);
  }

  lemma MutexLessens(cfg: Config, s: Server, st: Step)
    requires Enabled(cfg, s, st) && (st.ServerLock? || st.ServerUnlock?)
    ensures Measure(cfg, Next(cfg, s, st)) < Measure(cfg, s)
  {
    hide LogicCost, SessionsCost;
  }

  /** The server gets nearer to rest with every step it takes by itself. */
  lemma StepLessens(cfg: Config, s: Server, st: Step)
    requires Inv(cfg, s) && Enabled(cfg, s, st) && Internal(st)
    ensures Measure(cfg, Next(cfg, s, st)) < Measure(cfg, s)
  {
    hide Inv, LogicCost, SessionsCost;
    match st
    case Logic(ls) => LogicLessens(cfg, s, ls);
    case HandlerCall => CallLessens(cfg, s);
    case HandlerReturn => ReturnLessens(cfg, s);
    case Write(i, ws) => SendLessens(cfg, s, i, ws);
    case CoCheck(i) => CheckLessens(cfg, s, i);
    case PostEnter(i) => EnterLessens(cfg, s, i);
    case PostStep(i) => PostLessens(cfg, s, i);
    case _ => MutexLessens(cfg, s, st);
  }

  // ---------------------------------------------------------------- there is a step until all is quiet

  /** A session with nothing to write that can be written, and no message in hand. */
  predicate SessionQuiet(x: Session) {
    (x.writer.queue == [] || x.writer.failed) && !x.co.Check? && !x.co.PostWant? && !x.co.Posting?
  }

  /** The logic thread sleeps on an empty queue or is gone, every session is quiet, no lock is wanted. */
  predicate Quiet(s: Server) {
    && (s.logic.phase.Exited? || (s.logic.phase.Asleep? && s.logic.queue == []))
    && s.logic.poster.Nobody?
    && (s.logic.stop ==> s.logic.stopNotified)
    && s.waiting == {} && s.holder.None?
    && forall i :: 0 <= i < |s.sessions| ==> SessionQuiet(s.sessions[i])
  }

  /** A number above all of a finite set. */
  lemma {:induction false} Unused(ns: set<nat>) returns (n: nat)
    ensures forall m :: m in ns ==> m < n
    decreases |ns|
  {
    if ns == {} {
      n := 0;
    } else {
      var m :| m in ns;
      var k := Unused(ns - {m});
      assert forall x :: x in ns ==> x == m || x in ns - {m};
      n := if k <= m then m + 1 else k;
    }
  }

  /** A completion can always have a thread of its own. */
  lemma FreeCallback(s: Server, i: nat) returns (n: nat)
    requires i < |s.sessions|
    ensures W.Callback(n) !in s.sessions[i].writer.threads && s.IdleAtMutex(CallbackT(i, n))
  {
    var th := s.sessions[i].writer.threads.Keys;
    var writing := set t | t in th && t.Callback? :: t.n;
    var removing := set t | t in s.waiting && t.CallbackT? :: t.n;
    var holding := if s.holder.Some? && s.holder.value.CallbackT? then {s.holder.value.n} else {};
    n := Unused(writing + removing + holding);
    assert W.Callback(n) in th ==> n in writing;
    assert CallbackT(i, n) in s.waiting ==> n in removing;
  }

  /** Whoever has the right to write can go on. */
  lemma WriterMoves(cfg: Config, s: Server, i: nat) returns (st: Step)
    requires Inv(cfg, s) && i < |s.sessions|
    requires s.sessions[i].writer.queue != [] && !s.sessions[i].writer.failed
    ensures Internal(st) && Enabled(cfg, s, st)
  {
    var w := s.sessions[i].writer;
    assert SessionInv(cfg, s.logic, s.sending, i, s.sessions[i]);
    assert W.LockInv(w) && W.TokenInv(w) && W.WireInv(w);
    if w.owner.Some? {
      SessionLockMoves(cfg, s, i);
      st := Write(i, W.Leave(w.owner.value));
    } else if w.token.InFlight? {
      var fl := w.flights[0];
      if fl.sent < |fl.node| {
        st := Write(i, W.Progress(0, |fl.node| - fl.sent));
      } else {
        var n := FreeCallback(s, i);
        st := Write(i, W.Complete(0, W.Callback(n)));
      }
    } else {
      var t := w.token.t;
      assert t in w.threads && w.threads[t].Token() && !w.threads[t].Holds();
      st := OnWith(i, t, w.threads[t]);
    }
  }

  /** The logic thread and the producers: someone moves unless the thread is asleep or gone. */
  lemma LogicMoves(cfg: Config, s: Server) returns (st: Step)
    requires Inv(cfg, s)
    requires !s.logic.poster.Nobody? || !(s.logic.phase.Exited? || s.logic.phase.Asleep?)
    ensures Internal(st) && Enabled(cfg, s, st)
  {
    LockOwners(cfg, s);
    if !s.logic.poster.Nobody? {
      st := PostStep(s.logic.poster.who);
      assert PosterInv(s.logic.poster, s.logic.poster.who, s.sessions[s.logic.poster.who]);
    } else if s.logic.phase.HoldsMutex() {
      st := MutexMoves(cfg, s);
    } else {
      st := Logic(L.Lock);
    }
  }

  lemma MutexMoves(cfg: Config, s: Server) returns (st: Step)
    requires Inv(cfg, s) && s.logic.phase.HoldsMutex()
    ensures Internal(st) && Enabled(cfg, s, st)
  {
    hide Inv, Enabled;
    LogicLockMoves(cfg, s);
    st := Logic(L.WorkerNext(s.logic));
    if Enabled(cfg, s, st) {
      return;
    } else if Enabled(cfg, s, HandlerCall) {
      return HandlerCall;
    } else if Enabled(cfg, s, HandlerReturn) {
      return HandlerReturn;
    }
    var i := s.sending.r.session;
    var w := s.sessions[i].writer;
    st := OnWith(i, WORKER, w.threads[WORKER]);
    if !Enabled(cfg, s, st) {
      st := Write(i, W.Leave(w.owner.value));
    }
  }

  /** Unless all is quiet, the server has a step to take. */
  lemma ServerMoves(cfg: Config, s: Server) returns (st: Step)
    requires Inv(cfg, s) && !Quiet(s)
    ensures Internal(st) && Enabled(cfg, s, st)
  {
    if s.holder.Some? {
      st := ServerUnlock;
    } else if s.waiting != {} {
      var t :| t in s.waiting;
      st := ServerLock(t);
    } else if !s.logic.poster.Nobody? || !(s.logic.phase.Exited? || s.logic.phase.Asleep?) {
      st := LogicMoves(cfg, s);
    } else if s.logic.stop && !s.logic.stopNotified {
      st := Logic(L.StopNotify);
    } else {
      assert L.Inv(s.logic);
      var i :| 0 <= i < |s.sessions| && !SessionQuiet(s.sessions[i]);
      st := SessionMoves(cfg, s, i);
    }
  }

  lemma SessionMoves(cfg: Config, s: Server, i: nat) returns (st: Step)
    requires Inv(cfg, s) && i < |s.sessions| && !SessionQuiet(s.sessions[i])
    requires s.logic.poster.Nobody? && (s.logic.phase.Exited? || s.logic.phase.Asleep?)
    ensures Internal(st) && Enabled(cfg, s, st)
  {
    LockOwners(cfg, s);
    var x := s.sessions[i];
    assert PosterInv(s.logic.poster, i, x);
    if x.co.Check? {
      st := CoCheck(i);
    } else if x.co.PostWant? {
      st := PostEnter(i);
    } else {
      st := WriterMoves(cfg, s, i);
    }
  }

  lemma NobodyWrites(cfg: Config, s: Server, i: nat)
    requires Inv(cfg, s) && Quiet(s) && i < |s.sessions|
    ensures s.sessions[i].writer.threads == map[] && s.sessions[i].writer.flights == []
  {
    var w := s.sessions[i].writer;
    assert SessionInv(cfg, s.logic, s.sending, i, s.sessions[i]) && SessionQuiet(s.sessions[i]);
    assert W.TokenInv(w) && SenderInv(cfg, s.sending, i, s.sessions[i]);
    hide SessionInv, W.Inv;
    assert forall t :: t in w.threads ==> t.Callback?;
    assert forall t :: t in w.threads ==> !w.threads[t].Token();
  }

  /** The server is at rest, but for new input, exactly when all is quiet. */
  lemma RestsWhenQuiet(cfg: Config, s: Server)
    requires Inv(cfg, s)
    ensures Quiet(s) <==> forall st :: Internal(st) ==> !Enabled(cfg, s, st)
  {
    if Quiet(s) {
      forall st | Internal(st) ensures !Enabled(cfg, s, st) {
        if st.Write? && st.i < |s.sessions| {
          NobodyWrites(cfg, s, st.i);
        }
        assert (st.PostEnter? || st.PostStep? || st.CoCheck?) && st.i < |s.sessions| ==> SessionQuiet(s.sessions[st.i]);
      }
    } else {
      var st := ServerMoves(cfg, s);
    }
  }

  /**
   * At rest the server listens: it takes new connections, and on every session that is not closed the
   * very next bytes of the stream, whatever they are.
   */
  lemma ListensAtRest(cfg: Config, s: Server, i: nat, b: Octets)
    requires Inv(cfg, s) && Quiet(s)
    ensures Enabled(cfg, s, Accept)
    ensures i < |s.sessions| && ClosingInv(s.sessions[i]) && !s.sessions[i].closed ==>
              var wait := F.Parse(F.Head, s.sessions[i].received).wait;
              && !wait.Closed?
              && Enabled(cfg, s, CoFails(i))
              && (wait.Head? && |b| == 4 ==> Enabled(cfg, s, CoHead(i, b)))
              && (wait.Body? && |b| == wait.need ==> Enabled(cfg, s, CoBody(i, b)))
  {
    if i < |s.sessions| {
      assert SessionInv(cfg, s.logic, s.sending, i, s.sessions[i]) && SessionQuiet(s.sessions[i]);
      assert ReadInv(s.sessions[i]);
      hide SessionInv, F.Parse, L.Enabled, W.Enabled;
    }
  }

  /** A write in flight may fail at any time. */
  lemma WritesMayFail(cfg: Config, s: Server, i: nat) returns (n: nat)
    requires i < |s.sessions| && s.sessions[i].writer.flights != []
    ensures Enabled(cfg, s, WriteFails(i, 0, n))
  {
    n := FreeCallback(s, i);
  }

  /** Left alone, the server takes a bounded number of steps and keeps what it has received. */
  lemma {:induction false} InternalRunsAreBounded(cfg: Config, s: Server, sts: seq<Step>)
    requires Inv(cfg, s) && Legal(cfg, s, sts) && AllInternal(sts)
    ensures var n := Run(cfg, s, sts);
            && |sts| + Measure(cfg, n) <= Measure(cfg, s)
            && SameInput(s, n)
    decreases |sts|
  {
    hide Inv, Next, Enabled, Measure, SameInput, Internal;
    if sts == [] {
      Same(s);
    } else {
      StepInv(cfg, s, sts[0]);
      StepLessens(cfg, s, sts[0]);
      KeepsInput(cfg, s, sts[0]);
      var n := Next(cfg, s, sts[0]);
      assert forall k :: 0 < k < |sts| ==> sts[k] == sts[1..][k - 1];
      InternalRunsAreBounded(cfg, n, sts[1..]);
      SameThrough(s, n, Run(cfg, n, sts[1..]));
    }
  }

  /** The same sessions with the same bytes received, and the same writes failed. */
  ghost predicate SameInput(s: Server, n: Server) {
    && |n.sessions| == |s.sessions|
    && forall i :: 0 <= i < |s.sessions| ==>
         && n.sessions[i].received == s.sessions[i].received
         && n.sessions[i].writer.failed == s.sessions[i].writer.failed
  }

  lemma Same(s: Server)
    ensures SameInput(s, s)
  {
  }

  lemma SameThrough(s: Server, n: Server, m: Server)
    requires SameInput(s, n) && SameInput(n, m)
    ensures SameInput(s, m)
  {
  }

  lemma KeepsInput(cfg: Config, s: Server, st: Step)
    requires Enabled(cfg, s, st) && Internal(st)
    ensures SameInput(s, Next(cfg, s, st))
  {
    hide AnswerFrame, L.Next, L.Enabled;
  }

  /** So it does come to rest: here are its steps. */
  lemma {:induction false} ComesToRest(cfg: Config, s: Server) returns (sts: seq<Step>)
    requires Inv(cfg, s)
    ensures Legal(cfg, s, sts) && AllInternal(sts) && |sts| <= Measure(cfg, s)
    ensures Quiet(Run(cfg, s, sts))
    decreases Measure(cfg, s)
  {
    hide Inv, Next, Enabled, Measure, Internal, Quiet;
    if Quiet(s) {
      sts := [];
    } else {
      var st := ServerMoves(cfg, s);
      StepInv(cfg, s, st);
      StepLessens(cfg, s, st);
      var rest := ComesToRest(cfg, Next(cfg, s, st));
      sts := [st] + rest;
      assert sts[1..] == rest;
    }
  }

  /**
   * At rest nothing is missing. After any run, and any way of leaving the server alone until it has no
   * step to take: unless requests came after the logic thread had left its loop, a session in which no
   * write failed and no send was refused, as none is before there are more replies than a queue holds,
   * has on the wire exactly the encoded replies to all that arrived, and a client that reads it gets
   * exactly those replies if and only if each is within its reader's limits.
   */
  lemma EverythingIsAnswered(cfg: Config, sts: seq<Step>, more: seq<Step>, i: nat)
    requires Legal(cfg, Boot(cfg), sts) && Legal(cfg, Run(cfg, Boot(cfg), sts), more) && AllInternal(more)
    requires forall st :: Internal(st) ==> !Enabled(cfg, Run(cfg, Run(cfg, Boot(cfg), sts), more), st)
    requires i < |Run(cfg, Boot(cfg), sts).sessions|
    ensures var s := Run(cfg, Boot(cfg), sts);
            var n := Run(cfg, s, more);
            && |more| <= Measure(cfg, s)
            && |n.sessions| == |s.sessions|
            && ((n.logic.queue == [] || !n.logic.phase.Exited?) && !n.sessions[i].writer.failed ==>
                  Answers(n.sessions[i].writer, RepliesTo(cfg, i, sts)))
  {
    hide Inv, Next, Enabled, Measure, Internal, Boot;
    BootInv(cfg);
    RunInv(cfg, Boot(cfg), sts);
    var s := Run(cfg, Boot(cfg), sts);
    RunInv(cfg, s, more);
    InternalRunsAreBounded(cfg, s, more);
    ReceivedIsWhatArrived(cfg, sts, i);
    var n := Run(cfg, s, more);
    RestsWhenQuiet(cfg, n);
    hide Run, Legal, Answers;
    if (n.logic.queue == [] || !n.logic.phase.Exited?) && !n.sessions[i].writer.failed {
      assert SessionQuiet(n.sessions[i]);
      InvAnswers(cfg, n, i);
    }
  }
}
