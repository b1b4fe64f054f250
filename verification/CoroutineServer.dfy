/**
 * The whole S12 server: any number of sessions accepted at any time, each with its reading
 * coroutine and its write completions, the one logic thread they share, the acceptor, and all the
 * mutexes. One step is one action of one thread, so every interleaving is a run.
 */
module CoroutineServer {
  import opened Bytes
  import F = CoroutineFrames
  import W = WriteToken
  import L = LogicQueue

  type Reply = m: F.Message | F.Sendable(m) witness F.Message(0, [])

  /** The registered ids and what the handlers answer; the handlers themselves are not modelled. */
  datatype Config = Config(ids: set<int>, answer: (int, Octets) -> Reply)

  function AnswerFrame(cfg: Config, m: F.Message): Octets {
    F.Encode(cfg.answer(m.id, m.data))
  }

  /** One frame for each message with a registered id, in order. */
  function AnswersTo(cfg: Config, ms: seq<F.Message>): seq<Octets> {
    if ms == [] then []
    else
      var m := ms[|ms| - 1];
      AnswersTo(cfg, ms[..|ms| - 1]) + (if m.id in cfg.ids then [AnswerFrame(cfg, m)] else [])
  }

  /** The requests of session `i`. */
  function Of(i: nat, rs: seq<L.Request>): seq<F.Message> {
    if rs == [] then []
    else
      var r := rs[|rs| - 1];
      Of(i, rs[..|rs| - 1]) + (if r.session == i then [F.Message(r.id, r.data)] else [])
  }

  /** Where a reading coroutine stands. */
  datatype Co =
    | Check                                      // at the loop head, about to test `b_close_`
    | ReadHead
    | ReadBody(id: int, need: nat)
    | PostWant(m: F.Message)                     // about to lock the logic mutex
    | Posting(m: F.Message, pushed: bool)        // inside `post_msg_to_que`
    | Ending                                     // closed itself; `remove_session` is its last call
    | Done

  /** `received`: the bytes of completed reads; `asked`: the messages pushed on the logic queue. */
  datatype Session = Session(co: Co, writer: W.Writer, closed: bool, received: Octets, asked: seq<F.Message>)

  /** Whether the logic thread is in a handler's call of `send`, and past its critical section. */
  datatype Sending = Idle | Before(r: L.Request) | After(r: L.Request)

  datatype Thread = WorkerT | CoT(i: nat) | CallbackT(i: nat, n: nat) | AcceptorT(i: nat)

  /** `waiting` and `holder` are the threads at the server's own mutex; `onMap` is its map. */
  datatype Server = Server(
    logic: L.Logic,
    sessions: seq<Session>,
    sending: Sending,
    waiting: set<Thread>,
    holder: W.Option<Thread>,
    onMap: set<nat>)
  {
    function With(i: nat, x: Session): Server
      requires i < |sessions|
    {
      this.(sessions := sessions[i := x])
    }

    predicate IdleAtMutex(t: Thread) {
      t !in waiting && holder != W.Some(t)
    }
  }

  const WORKER := W.Sender(0)

  datatype Step =
    | Logic(ls: L.Step)
    | HandlerCall
    | HandlerReturn
    | Write(i: nat, ws: W.Step)
    | WriteFails(i: nat, k: nat, n: nat)
    | CoCheck(i: nat)
    | CoHead(i: nat, h: Octets)
    | CoBody(i: nat, b: Octets)
    | CoFails(i: nat)
    | PostEnter(i: nat)
    | PostStep(i: nat)
    | ServerLock(t: Thread)
    | ServerUnlock
    | Accept

  predicate OwnLogicStep(st: L.Step) {
    st.Lock? || st.Test? || st.Sleep? || st.Wakeup? || st.Look? || st.DrainOne? || st.SetStop? || st.StopNotify?
  }

  predicate OwnWriteStep(s: Server, i: nat, st: W.Step) {
    match st
    case Begin(_, _) => false
    case Fail(_) => false
    case Complete(_, t) => t.Callback? && s.IdleAtMutex(CallbackT(i, t.n))
    case _ => true
  }

  function PosterStep(l: L.Logic): L.Step
    requires !l.poster.Nobody?
  {
    match l.poster
    case Entered(_, _) => L.PostPush
    case Pushed(_) => L.PostNotify
    case Notified(_) => L.PostLeave
  }

  predicate Enabled(cfg: Config, s: Server, st: Step) {
    match st
    case Logic(ls) => OwnLogicStep(ls) && L.Enabled(s.logic, ls)
    case HandlerCall =>
      && (s.logic.phase.Dispatch? || s.logic.phase.DrainDispatch?) && s.sending.Idle?
      && s.logic.phase.m.session < |s.sessions|
      && W.Enabled(s.sessions[s.logic.phase.m.session].writer, W.Begin(WORKER, []))
    case HandlerReturn =>
      && s.sending.After? && s.sending.r.session < |s.sessions|
      && WORKER !in s.sessions[s.sending.r.session].writer.threads
      && (L.Enabled(s.logic, L.Return) || L.Enabled(s.logic, L.DrainReturn))
    case Write(i, ws) => i < |s.sessions| && OwnWriteStep(s, i, ws) && W.Enabled(s.sessions[i].writer, ws)
    case WriteFails(i, k, n) =>
      && i < |s.sessions| && W.Enabled(s.sessions[i].writer, W.Fail(k))
      && W.Callback(n) !in s.sessions[i].writer.threads && s.IdleAtMutex(CallbackT(i, n))
    case CoCheck(i) => i < |s.sessions| && s.sessions[i].co.Check?
    case CoHead(i, h) => i < |s.sessions| && s.sessions[i].co.ReadHead? && |h| == F.HEAD_TOTAL_LENGTH
    case CoBody(i, b) => i < |s.sessions| && s.sessions[i].co.ReadBody? && |b| == s.sessions[i].co.need
    case CoFails(i) => i < |s.sessions| && (s.sessions[i].co.ReadHead? || s.sessions[i].co.ReadBody?)
    case PostEnter(i) => i < |s.sessions| && s.sessions[i].co.PostWant? && s.logic.MutexFree()
    case PostStep(i) =>
      i < |s.sessions| && s.sessions[i].co.Posting? && !s.logic.poster.Nobody? && s.logic.poster.who == i
    case ServerLock(t) => t in s.waiting && s.holder == W.None
    case ServerUnlock => s.holder.Some?
    case Accept => true
  }

  function AskedFor(i: nat, m: F.Message): L.Request {
    L.Request(i, m.id, m.data)
  }

  function Next(cfg: Config, s: Server, st: Step): Server
    requires Enabled(cfg, s, st)
  {
    match st
    case Logic(ls) => s.(logic := L.Next(s.logic, ls))
    case HandlerCall =>
      var r := s.logic.phase.m;
      var x := s.sessions[r.session];
      var f := AnswerFrame(cfg, F.Message(r.id, r.data));
      s.With(r.session, x.(writer := W.Next(x.writer, W.Begin(WORKER, f)))).(sending := Before(r))
    case HandlerReturn =>
      var back := if s.logic.phase.Dispatch? then L.Return else L.DrainReturn;
      s.(logic := L.Next(s.logic, back), sending := Idle)
    case Write(i, ws) =>
      var x := s.sessions[i];
      s.With(i, x.(writer := W.Next(x.writer, ws)))
       .(sending := if ws == W.Leave(WORKER) && s.sending.Before? then After(s.sending.r) else s.sending)
    case WriteFails(i, k, n) =>
      var x := s.sessions[i];
      s.With(i, x.(writer := W.Next(x.writer, W.Fail(k)), closed := true))
       .(waiting := s.waiting + {CallbackT(i, n)})
    case CoCheck(i) =>
      var x := s.sessions[i];
      s.With(i, x.(co := if x.closed then Done else ReadHead))
    case CoHead(i, h) =>
      var x := s.sessions[i].(received := s.sessions[i].received + h);
      (match F.AfterHead(h)
       case Body(id, n) => s.With(i, x.(co := ReadBody(id, n)))
       case _ => s.With(i, x.(co := Ending, closed := true)).(waiting := s.waiting + {CoT(i)}))
    case CoBody(i, b) =>
      var x := s.sessions[i];
      s.With(i, x.(received := x.received + b, co := PostWant(F.Message(x.co.id, b))))
    case CoFails(i) =>
      s.With(i, s.sessions[i].(co := Ending, closed := true)).(waiting := s.waiting + {CoT(i)})
    case PostEnter(i) =>
      var x := s.sessions[i];
      s.With(i, x.(co := Posting(x.co.m, false)))
       .(logic := L.Next(s.logic, L.PostEnter(i, AskedFor(i, x.co.m))))
    case PostStep(i) =>
      var x := s.sessions[i];
      var ls := PosterStep(s.logic);
      var y := match ls
               case PostPush => x.(co := Posting(x.co.m, true), asked := x.asked + [x.co.m])
               case PostLeave => x.(co := Check)
               case _ => x;
      s.With(i, y).(logic := L.Next(s.logic, ls))
    case ServerLock(t) => s.(waiting := s.waiting - {t}, holder := W.Some(t))
    case ServerUnlock =>
      (match s.holder.value
       case AcceptorT(i) => s.(holder := W.None, onMap := s.onMap + {i})
       case CoT(i) => s.(holder := W.None, onMap := s.onMap - {i})
       case CallbackT(i, _) => s.(holder := W.None, onMap := s.onMap - {i})
       case WorkerT => s.(holder := W.None))
    case Accept =>
      s.(sessions := s.sessions + [STARTED], waiting := s.waiting + {AcceptorT(|s.sessions|)})
  }

  const STARTED := Session(Check, W.IDLE, false, [], [])

  function Boot(cfg: Config): Server {
    Server(L.Begin(L.S12, cfg.ids), [], Idle, {}, W.None, {})
  }

  predicate Legal(cfg: Config, s: Server, sts: seq<Step>)
    decreases |sts|
  {
    sts != [] ==> Enabled(cfg, s, sts[0]) && Legal(cfg, Next(cfg, s, sts[0]), sts[1..])
  }

  function Run(cfg: Config, s: Server, sts: seq<Step>): Server
    requires Legal(cfg, s, sts)
    decreases |sts|
  {
    if sts == [] then s else Run(cfg, Next(cfg, s, sts[0]), sts[1..])
  }

  // ---------------------------------------------------------------- invariants

  /** What was posted is what the bytes received so far mean, up to the message in hand. */
  ghost predicate ReadInv(x: Session) {
    var p := F.Parse(F.Head, x.received);
    match x.co
    case Check => p == F.Parsed(x.asked, F.Head, [])
    case ReadHead => p == F.Parsed(x.asked, F.Head, [])
    case ReadBody(id, n) => p == F.Parsed(x.asked, F.Body(id, n), [])
    case PostWant(m) => p == F.Parsed(x.asked + [m], F.Head, [])
    case Posting(m, pushed) => p == F.Parsed(if pushed then x.asked else x.asked + [m], F.Head, [])
    case Ending => p.msgs == x.asked
    case Done => p == F.Parsed(x.asked, F.Head, [])
  }

  ghost predicate PosterInv(poster: L.Poster, i: nat, x: Session) {
    && (x.co.Posting? <==> !poster.Nobody? && poster.who == i)
    && (x.co.Posting? ==>
          && (x.co.pushed <==> !poster.Entered?)
          && (poster.Entered? ==> poster.m == AskedFor(i, x.co.m)))
  }

  function Extra(cfg: Config, sending: Sending, i: nat): seq<Octets> {
    if sending.After? && sending.r.session == i
    then [AnswerFrame(cfg, F.Message(sending.r.id, sending.r.data))] else []
  }

  ghost predicate HistoryInv(cfg: Config, posted: seq<L.Request>, taken: seq<L.Request>, sending: Sending,
                             i: nat, x: Session)
  {
    && x.asked == Of(i, posted)
    && x.writer.offered == AnswersTo(cfg, Of(i, taken)) + Extra(cfg, sending, i)
  }

  /** The only sender is the logic thread, in the session whose request it is handling. */
  ghost predicate SenderInv(cfg: Config, sending: Sending, i: nat, x: Session) {
    && (forall t :: t in x.writer.threads && t.Sender? ==> t == WORKER && !sending.Idle? && sending.r.session == i)
    && (forall t :: t in x.writer.threads && t.Callback? ==>
          !x.writer.threads[t].WantSend? && !x.writer.threads[t].InSend?)
    && (sending.Before? && sending.r.session == i ==>
          && WORKER in x.writer.threads
          && var ph := x.writer.threads[WORKER];
             (ph.WantSend? || ph.InSend?) && ph.f == AnswerFrame(cfg, F.Message(sending.r.id, sending.r.data)))
    && (sending.After? && sending.r.session == i && WORKER in x.writer.threads ==> x.writer.threads[WORKER].Gap?)
  }

  ghost predicate SessionInv(cfg: Config, l: L.Logic, sending: Sending, i: nat, x: Session) {
    && W.Inv(x.writer)
    && ReadInv(x)
    && PosterInv(l.poster, i, x)
    && HistoryInv(cfg, l.posted, l.taken, sending, i, x)
    && SenderInv(cfg, sending, i, x)
  }

  ghost predicate LogicInv(cfg: Config, s: Server) {
    && L.Inv(s.logic) && s.logic.variant.S12? && s.logic.ids == cfg.ids
    && (!s.sending.Idle? ==>
          (s.logic.phase == L.Dispatch(s.sending.r) || s.logic.phase == L.DrainDispatch(s.sending.r)))
    && (!s.logic.poster.Nobody? ==> s.logic.poster.who < |s.sessions|)
    && (forall k :: 0 <= k < |s.logic.posted| ==> s.logic.posted[k].session < |s.sessions|)
  }

  ghost predicate Inv(cfg: Config, s: Server) {
    && LogicInv(cfg, s)
    && (forall i :: 0 <= i < |s.sessions| ==> SessionInv(cfg, s.logic, s.sending, i, s.sessions[i]))
  }

  lemma OfSnoc(i: nat, rs: seq<L.Request>, r: L.Request)
    ensures Of(i, rs + [r]) == Of(i, rs) + (if r.session == i then [F.Message(r.id, r.data)] else [])
  {
    assert (rs + [r])[..|rs|] == rs;
  }

  lemma AnswersSnoc(cfg: Config, ms: seq<F.Message>, m: F.Message)
    ensures AnswersTo(cfg, ms + [m])
         == AnswersTo(cfg, ms) + (if m.id in cfg.ids then [AnswerFrame(cfg, m)] else [])
  {
    assert (ms + [m])[..|ms|] == ms;
  }

  /** One more request taken adds one answer in its own session, if its id is registered. */
  lemma TakenSnoc(cfg: Config, i: nat, rs: seq<L.Request>, r: L.Request)
    ensures AnswersTo(cfg, Of(i, rs + [r]))
         == AnswersTo(cfg, Of(i, rs))
            + (if r.session == i && r.id in cfg.ids then [AnswerFrame(cfg, F.Message(r.id, r.data))] else [])
  {
    OfSnoc(i, rs, r);
    hide AnswersTo, Of, AnswerFrame;
    if r.session == i {
      AnswersSnoc(cfg, Of(i, rs), F.Message(r.id, r.data));
    } else {
      assert Of(i, rs) + [] == Of(i, rs);
    }
  }

  lemma {:induction false} OfNone(i: nat, rs: seq<L.Request>)
    requires forall k :: 0 <= k < |rs| ==> rs[k].session != i
    ensures Of(i, rs) == []
    decreases |rs|
  {
    if rs != [] {
      OfNone(i, rs[..|rs| - 1]);
    }
  }

  lemma {:induction false} OfPrefix(i: nat, a: seq<L.Request>, b: seq<L.Request>)
    requires a <= b
    ensures Of(i, a) <= Of(i, b)
    decreases |b|
  {
    if a != b {
      OfPrefix(i, a, b[..|b| - 1]);
    }
  }

  lemma {:induction false} AnswersPrefix(cfg: Config, a: seq<F.Message>, b: seq<F.Message>)
    requires a <= b
    ensures AnswersTo(cfg, a) <= AnswersTo(cfg, b)
    decreases |b|
  {
    if a != b {
      AnswersPrefix(cfg, a, b[..|b| - 1]);
    }
  }

  predicate Concerns(g: Sending, i: nat) {
    !g.Idle? && g.r.session == i
  }

  predicate PostsFor(p: L.Poster, i: nat) {
    !p.Nobody? && p.who == i
  }

  /** A step that has nothing to do with session `j` leaves what is known of it. */
  lemma Bystander(cfg: Config, l: L.Logic, m: L.Logic, g: Sending, h: Sending, r: L.Request, j: nat, x: Session)
    requires SessionInv(cfg, l, g, j, x)
    requires m.poster == l.poster || (!PostsFor(l.poster, j) && !PostsFor(m.poster, j))
    requires h == g || (!Concerns(g, j) && !Concerns(h, j))
    requires m.posted == l.posted || (m.posted == l.posted + [r] && r.session != j)
    requires m.taken == l.taken || (m.taken == l.taken + [r] && (r.session != j || r.id !in cfg.ids))
    ensures SessionInv(cfg, m, h, j, x)
  {
    OfSnoc(j, l.posted, r);
    TakenSnoc(cfg, j, l.taken, r);
    hide W.Inv, ReadInv, AnswersTo, Of, AnswerFrame;
    assert Of(j, l.posted) + [] == Of(j, l.posted);
    assert AnswersTo(cfg, Of(j, l.taken)) + [] == AnswersTo(cfg, Of(j, l.taken));
  }

  /** Only session `i`, if any, was concerned by the step from `s` to `n`. */
  lemma OnlyOne(cfg: Config, s: Server, n: Server, r: L.Request, i: nat)
    requires Inv(cfg, s) && LogicInv(cfg, n)
    requires |n.sessions| == |s.sessions|
    requires i < |n.sessions| ==> SessionInv(cfg, n.logic, n.sending, i, n.sessions[i])
    requires forall j :: 0 <= j < |s.sessions| && j != i ==> n.sessions[j] == s.sessions[j]
    requires forall j :: 0 <= j < |s.sessions| && j != i ==>
               && (n.logic.poster == s.logic.poster || (!PostsFor(s.logic.poster, j) && !PostsFor(n.logic.poster, j)))
               && (n.sending == s.sending || (!Concerns(s.sending, j) && !Concerns(n.sending, j)))
    requires n.logic.posted == s.logic.posted || (n.logic.posted == s.logic.posted + [r] && r.session == i)
    requires n.logic.taken == s.logic.taken
             || (n.logic.taken == s.logic.taken + [r] && (r.session == i || r.id !in cfg.ids))
    ensures Inv(cfg, n)
  {
    hide SessionInv, LogicInv;
    forall j | 0 <= j < |n.sessions| ensures SessionInv(cfg, n.logic, n.sending, j, n.sessions[j]) {
      if j != i {
        Bystander(cfg, s.logic, n.logic, s.sending, n.sending, r, j, s.sessions[j]);
      }
    }
  }

  lemma LogicStepInv(cfg: Config, s: Server, ls: L.Step)
    requires Inv(cfg, s) && Enabled(cfg, s, Logic(ls))
    ensures Inv(cfg, Next(cfg, s, Logic(ls)))
  {
    L.StepInv(s.logic, ls);
    hide SessionInv;
    var n := Next(cfg, s, Logic(ls));
    var r := if s.logic.queue != [] then s.logic.queue[0] else L.Request(0, 0, []);
    assert LogicInv(cfg, n);
    OnlyOne(cfg, s, n, r, |n.sessions|);
  }

  lemma CallOwn(cfg: Config, l: L.Logic, r: L.Request, x: Session)
    requires SessionInv(cfg, l, Idle, r.session, x)
    requires W.Enabled(x.writer, W.Begin(WORKER, []))
    ensures var f := AnswerFrame(cfg, F.Message(r.id, r.data));
            SessionInv(cfg, l, Before(r), r.session, x.(writer := W.Next(x.writer, W.Begin(WORKER, f))))
  {
    var f := AnswerFrame(cfg, F.Message(r.id, r.data));
    hide W.Inv, AnswersTo, Of, AnswerFrame, ReadInv;
    W.StepInv(x.writer, W.Begin(WORKER, f));
    ReadIgnoresWriter(x, x.(writer := W.Next(x.writer, W.Begin(WORKER, f))));
  }

  lemma CallEffect(cfg: Config, s: Server)
    requires LogicInv(cfg, s) && Enabled(cfg, s, HandlerCall)
    ensures var r := s.logic.phase.m;
            var f := AnswerFrame(cfg, F.Message(r.id, r.data));
            var x := s.sessions[r.session];
            var n := Next(cfg, s, HandlerCall);
            && LogicInv(cfg, n) && n.logic == s.logic && n.sending == Before(r)
            && n.sessions == s.sessions[r.session := x.(writer := W.Next(x.writer, W.Begin(WORKER, f)))]
  {
    hide L.Inv, W.Next, AnswerFrame;
  }

  lemma HandlerCallInv(cfg: Config, s: Server)
    requires Inv(cfg, s) && Enabled(cfg, s, HandlerCall)
    ensures Inv(cfg, Next(cfg, s, HandlerCall))
  {
    var r := s.logic.phase.m;
    CallEffect(cfg, s);
    CallOwn(cfg, s.logic, r, s.sessions[r.session]);
    hide SessionInv, LogicInv, Next, W.Next, AnswerFrame;
    OnlyOne(cfg, s, Next(cfg, s, HandlerCall), r, r.session);
  }

  lemma ReturnOwn(cfg: Config, l: L.Logic, m: L.Logic, r: L.Request, x: Session)
    requires SessionInv(cfg, l, After(r), r.session, x)
    requires WORKER !in x.writer.threads && r.id in cfg.ids
    requires m.poster == l.poster && m.posted == l.posted && m.taken == l.taken + [r]
    ensures SessionInv(cfg, m, Idle, r.session, x)
  {
    TakenSnoc(cfg, r.session, l.taken, r);
    hide W.Inv, AnswersTo, Of, AnswerFrame, F.Parse;
  }

  lemma ReturnEffect(cfg: Config, s: Server)
    requires LogicInv(cfg, s) && Enabled(cfg, s, HandlerReturn)
    ensures s.sending.r.id in cfg.ids
    ensures var n := Next(cfg, s, HandlerReturn);
            && LogicInv(cfg, n) && n.sending.Idle? && n.sessions == s.sessions
            && n.logic.poster == s.logic.poster && n.logic.posted == s.logic.posted
            && n.logic.taken == s.logic.taken + [s.sending.r]
  {
    L.StepInv(s.logic, if s.logic.phase.Dispatch? then L.Return else L.DrainReturn);
  }

  lemma HandlerReturnInv(cfg: Config, s: Server)
    requires Inv(cfg, s) && Enabled(cfg, s, HandlerReturn)
    ensures Inv(cfg, Next(cfg, s, HandlerReturn))
  {
    var r := s.sending.r;
    assert WORKER !in s.sessions[r.session].writer.threads;
    ReturnEffect(cfg, s);
    hide SessionInv, LogicInv, Next, Enabled;
    var n := Next(cfg, s, HandlerReturn);
    ReturnOwn(cfg, s.logic, n.logic, r, s.sessions[r.session]);
    OnlyOne(cfg, s, n, r, r.session);
  }

  /** What a write-side step can do to the history: only the logic thread's own send adds to it. */
  lemma WriteEffect(cfg: Config, sending: Sending, i: nat, x: Session, ws: W.Step)
    requires SenderInv(cfg, sending, i, x) && W.Enabled(x.writer, ws)
    requires !ws.Begin? && (ws.Complete? ==> ws.t.Callback?)
    ensures var y := x.(writer := W.Next(x.writer, ws));
            var own := ws == W.Leave(WORKER) && sending.Before?;
            var after := if own then After(sending.r) else sending;
            && SenderInv(cfg, after, i, y)
            && (own ==> sending.r.session == i)
            && y.writer.offered
            == x.writer.offered
               + (if own then [AnswerFrame(cfg, F.Message(sending.r.id, sending.r.data))] else [])
  {
    hide AnswerFrame;
    if ws.Leave? {
      assert ws.t in x.writer.threads;
      LeaveEffect(cfg, sending, i, x, ws.t);
    }
  }

  lemma LeaveEffect(cfg: Config, sending: Sending, i: nat, x: Session, t: W.Tid)
    requires SenderInv(cfg, sending, i, x) && W.Enabled(x.writer, W.Leave(t))
    ensures var y := x.(writer := W.Next(x.writer, W.Leave(t)));
            var own := t == WORKER && sending.Before?;
            var after := if own then After(sending.r) else sending;
            && SenderInv(cfg, after, i, y)
            && (own ==> sending.r.session == i)
            && y.writer.offered
            == x.writer.offered
               + (if own then [AnswerFrame(cfg, F.Message(sending.r.id, sending.r.data))] else [])
  {
    hide AnswerFrame;
    assert t in x.writer.threads;
  }

  lemma WriteOwn(cfg: Config, l: L.Logic, g: Sending, i: nat, x: Session, ws: W.Step)
    requires SessionInv(cfg, l, g, i, x) && W.Enabled(x.writer, ws)
    requires !ws.Begin? && (ws.Complete? ==> ws.t.Callback?)
    ensures var own := ws == W.Leave(WORKER) && g.Before?;
            && (own ==> g.r.session == i)
            && SessionInv(cfg, l, if own then After(g.r) else g, i, x.(writer := W.Next(x.writer, ws)))
  {
    hide W.Inv, W.Next, W.Enabled, AnswersTo, Of, AnswerFrame, SenderInv, ReadInv;
    W.StepInv(x.writer, ws);
    WriteEffect(cfg, g, i, x, ws);
    var y := x.(writer := W.Next(x.writer, ws));
    ReadIgnoresWriter(x, y);
  }

  lemma ReadIgnoresWriter(x: Session, y: Session)
    requires ReadInv(x) && y.co == x.co && y.received == x.received && y.asked == x.asked
    ensures ReadInv(y)
  {
  }

  lemma WriteInv(cfg: Config, s: Server, i: nat, ws: W.Step)
    requires Inv(cfg, s) && Enabled(cfg, s, Write(i, ws))
    ensures Inv(cfg, Next(cfg, s, Write(i, ws)))
  {
    WriteOwn(cfg, s.logic, s.sending, i, s.sessions[i], ws);
    hide SessionInv, W.Next, W.Enabled, L.Inv;
    OnlyOne(cfg, s, Next(cfg, s, Write(i, ws)), L.Request(i, 0, []), i);
  }

  lemma ClosingOwn(cfg: Config, l: L.Logic, g: Sending, i: nat, x: Session)
    requires SessionInv(cfg, l, g, i, x)
    ensures SessionInv(cfg, l, g, i, x.(closed := true))
  {
    hide W.Inv, AnswersTo, Of, AnswerFrame, F.Parse;
  }

  lemma WriteFailsInv(cfg: Config, s: Server, i: nat, k: nat, m: nat)
    requires Inv(cfg, s) && Enabled(cfg, s, WriteFails(i, k, m))
    ensures Inv(cfg, Next(cfg, s, WriteFails(i, k, m)))
  {
    WriteOwn(cfg, s.logic, s.sending, i, s.sessions[i], W.Fail(k));
    hide SessionInv, W.Next, W.Enabled, L.Inv;
    var x := s.sessions[i];
    ClosingOwn(cfg, s.logic, s.sending, i, x.(writer := W.Next(x.writer, W.Fail(k))));
    OnlyOne(cfg, s, Next(cfg, s, WriteFails(i, k, m)), L.Request(i, 0, []), i);
  }

  /** A completed read moves the coroutine as the whole-stream parser says. */
  lemma HeadRead(x: Session, h: Octets)
    requires ReadInv(x) && x.co.ReadHead? && |h| == F.HEAD_TOTAL_LENGTH
    ensures F.Parse(F.Head, x.received + h) == F.Parsed(x.asked, F.AfterHead(h), [])
  {
    F.ParseSnoc(F.Head, x.received, h);
    assert F.Parse(F.Head, h) == F.Parsed([], F.AfterHead(h), []) by {
      assert h[..F.HEAD_TOTAL_LENGTH] == h && h[F.HEAD_TOTAL_LENGTH..] == [];
    }
    hide F.Parse, F.AfterHead;
    assert [] + h == h && x.asked + [] == x.asked;
  }

  lemma BodyRead(x: Session, b: Octets)
    requires ReadInv(x) && x.co.ReadBody? && |b| == x.co.need
    ensures F.Parse(F.Head, x.received + b) == F.Parsed(x.asked + [F.Message(x.co.id, b)], F.Head, [])
  {
    F.ParseSnoc(F.Head, x.received, b);
    assert F.Parse(F.Body(x.co.id, x.co.need), b) == F.Parsed([F.Message(x.co.id, b)], F.Head, []) by {
      assert b[..x.co.need] == b && b[x.co.need..] == [];
    }
    hide F.Parse;
    assert [] + b == b;
  }

  /** A change of the reading side alone. */
  lemma ReadOwn(cfg: Config, l: L.Logic, g: Sending, i: nat, x: Session, y: Session)
    requires SessionInv(cfg, l, g, i, x) && !x.co.Posting? && !y.co.Posting?
    requires y.writer == x.writer && y.asked == x.asked && ReadInv(y)
    ensures SessionInv(cfg, l, g, i, y)
  {
    hide W.Inv, AnswersTo, Of, AnswerFrame, F.Parse;
  }

  predicate CoroutineStep(st: Step) {
    st.CoCheck? || st.CoHead? || st.CoBody? || st.CoFails?
  }

  /** The session after a step of its coroutine other than posting. */
  function Moved(x: Session, st: Step): Session
    requires CoroutineStep(st) && (st.CoHead? ==> |st.h| == F.HEAD_TOTAL_LENGTH) && (st.CoBody? ==> x.co.ReadBody?)
  {
    match st
    case CoCheck(_) => x.(co := if x.closed then Done else ReadHead)
    case CoHead(_, h) =>
      var w := F.AfterHead(h);
      if w.Body? then x.(received := x.received + h, co := ReadBody(w.id, w.need))
      else x.(received := x.received + h, co := Ending, closed := true)
    case CoBody(_, b) => x.(received := x.received + b, co := PostWant(F.Message(x.co.id, b)))
    case _ => x.(co := Ending, closed := true)
  }

  lemma MovedReads(cfg: Config, s: Server, st: Step)
    requires Enabled(cfg, s, st) && CoroutineStep(st) && ReadInv(s.sessions[st.i])
    ensures ReadInv(Moved(s.sessions[st.i], st))
  {
    var x := s.sessions[st.i];
    hide ReadInv;
    if st.CoHead? {
      HeadMoves(x, st);
    } else if st.CoBody? {
      BodyMoves(x, st);
    } else {
      OthersMove(x, st);
    }
  }

  lemma HeadMoves(x: Session, st: Step)
    requires ReadInv(x) && x.co.ReadHead? && st.CoHead? && |st.h| == F.HEAD_TOTAL_LENGTH
    ensures ReadInv(Moved(x, st))
  {
    hide F.Parse, F.AfterHead;
    HeadRead(x, st.h);
  }

  lemma BodyMoves(x: Session, st: Step)
    requires ReadInv(x) && x.co.ReadBody? && st.CoBody? && |st.b| == x.co.need
    ensures ReadInv(Moved(x, st))
  {
    hide F.Parse;
    BodyRead(x, st.b);
  }

  lemma OthersMove(x: Session, st: Step)
    requires ReadInv(x) && (st.CoCheck? || st.CoFails?)
    requires if st.CoCheck? then x.co.Check? else x.co.ReadHead? || x.co.ReadBody?
    ensures ReadInv(Moved(x, st))
  {
    hide F.Parse;
  }

  lemma CoroutineOwn(cfg: Config, s: Server, st: Step)
    requires Enabled(cfg, s, st) && CoroutineStep(st)
    ensures var n := Next(cfg, s, st);
            && n == s.(sessions := n.sessions, waiting := n.waiting)
            && n.sessions == s.sessions[st.i := Moved(s.sessions[st.i], st)]
  {
    hide F.AfterHead;
  }

  lemma CoroutineInv(cfg: Config, s: Server, st: Step)
    requires Inv(cfg, s) && Enabled(cfg, s, st) && CoroutineStep(st)
    ensures Inv(cfg, Next(cfg, s, st))
  {
    CoroutineOwn(cfg, s, st);
    assert SessionInv(cfg, s.logic, s.sending, st.i, s.sessions[st.i]);
    MovedReads(cfg, s, st);
    hide SessionInv, ReadInv, L.Inv, Next, F.AfterHead;
    var n := Next(cfg, s, st);
    ReadOwn(cfg, s.logic, s.sending, st.i, s.sessions[st.i], n.sessions[st.i]);
    OnlyOne(cfg, s, n, L.Request(st.i, 0, []), st.i);
  }

  lemma PostEnterOwn(cfg: Config, l: L.Logic, g: Sending, i: nat, x: Session)
    requires SessionInv(cfg, l, g, i, x) && x.co.PostWant?
    ensures var y := x.(co := Posting(x.co.m, false));
            SessionInv(cfg, l.(poster := L.Entered(i, AskedFor(i, x.co.m))), g, i, y)
  {
    hide W.Inv, AnswersTo, Of, AnswerFrame, F.Parse;
  }

  lemma PostEnterInv(cfg: Config, s: Server, i: nat)
    requires Inv(cfg, s) && Enabled(cfg, s, PostEnter(i))
    ensures Inv(cfg, Next(cfg, s, PostEnter(i)))
  {
    var m := s.sessions[i].co.m;
    L.StepInv(s.logic, L.PostEnter(i, AskedFor(i, m)));
    PostEnterOwn(cfg, s.logic, s.sending, i, s.sessions[i]);
    hide SessionInv, L.Inv;
    OnlyOne(cfg, s, Next(cfg, s, PostEnter(i)), AskedFor(i, m), i);
  }

  /** What a producer does to the logic queue in its critical section. */
  lemma PosterEffect(l: L.Logic)
    requires !l.poster.Nobody?
    ensures L.Enabled(l, PosterStep(l))
    ensures var m := L.Next(l, PosterStep(l));
            && m.taken == l.taken && m.ids == l.ids && m.variant == l.variant
            && (m.phase == l.phase || l.phase.Asleep?)
            && (l.poster.Entered? ==> m.poster == L.Pushed(l.poster.who) && m.posted == l.posted + [l.poster.m])
            && (l.poster.Pushed? ==> m.poster == L.Notified(l.poster.who) && m.posted == l.posted)
            && (l.poster.Notified? ==> m.poster.Nobody? && m.posted == l.posted)
  {
  }

  function AfterPostStep(p: L.Poster, x: Session): Session
    requires x.co.Posting?
  {
    match p
    case Entered(_, _) => x.(co := Posting(x.co.m, true), asked := x.asked + [x.co.m])
    case Notified(_) => x.(co := Check)
    case _ => x
  }

  lemma PostStepOwn(cfg: Config, l: L.Logic, m: L.Logic, g: Sending, i: nat, x: Session)
    requires SessionInv(cfg, l, g, i, x) && PostsFor(l.poster, i)
    requires m.taken == l.taken
    requires l.poster.Entered? ==> m.poster == L.Pushed(i) && m.posted == l.posted + [l.poster.m]
    requires l.poster.Pushed? ==> m.poster == L.Notified(i) && m.posted == l.posted
    requires l.poster.Notified? ==> m.poster.Nobody? && m.posted == l.posted
    ensures x.co.Posting? && (l.poster.Entered? ==> l.poster.m == AskedFor(i, x.co.m))
    ensures SessionInv(cfg, m, g, i, AfterPostStep(l.poster, x))
  {
    hide W.Inv, AnswersTo, Of, AnswerFrame, F.Parse;
    if l.poster.Entered? {
      OfSnoc(i, l.posted, l.poster.m);
    }
  }

  lemma PostStepLogic(cfg: Config, s: Server, i: nat)
    requires LogicInv(cfg, s) && Enabled(cfg, s, PostStep(i))
    requires s.logic.poster.Entered? ==> s.logic.poster.m == AskedFor(i, s.sessions[i].co.m)
    ensures var n := Next(cfg, s, PostStep(i));
            && n == s.(sessions := n.sessions, logic := L.Next(s.logic, PosterStep(s.logic)))
            && n.sessions == s.sessions[i := AfterPostStep(s.logic.poster, s.sessions[i])]
            && LogicInv(cfg, n)
  {
    L.StepInv(s.logic, PosterStep(s.logic));
    PosterEffect(s.logic);
    hide L.Inv, L.Next;
  }

  lemma PostStepInv(cfg: Config, s: Server, i: nat)
    requires Inv(cfg, s) && Enabled(cfg, s, PostStep(i))
    ensures Inv(cfg, Next(cfg, s, PostStep(i)))
  {
    hide SessionInv, LogicInv, L.Next, L.Enabled, Next;
    PosterEffect(s.logic);
    PostStepOwn(cfg, s.logic, L.Next(s.logic, PosterStep(s.logic)), s.sending, i, s.sessions[i]);
    PostStepLogic(cfg, s, i);
    OnlyOne(cfg, s, Next(cfg, s, PostStep(i)), AskedFor(i, s.sessions[i].co.m), i);
  }

  lemma StartedInv(cfg: Config, l: L.Logic, g: Sending, i: nat)
    requires !PostsFor(l.poster, i) && !Concerns(g, i)
    requires forall k :: 0 <= k < |l.posted| ==> l.posted[k].session != i
    requires forall k :: 0 <= k < |l.taken| ==> l.taken[k].session != i
    ensures SessionInv(cfg, l, g, i, STARTED)
  {
    OfNone(i, l.posted);
    OfNone(i, l.taken);
  }

  /** A session about to be accepted has no past. */
  lemma NoPast(cfg: Config, s: Server)
    requires LogicInv(cfg, s)
    ensures !PostsFor(s.logic.poster, |s.sessions|) && !Concerns(s.sending, |s.sessions|)
    ensures forall k :: 0 <= k < |s.logic.taken| ==> s.logic.taken[k].session < |s.sessions|
  {
    forall k | 0 <= k < |s.logic.taken| ensures s.logic.taken[k].session < |s.sessions| {
      assert s.logic.taken[k] == s.logic.posted[k];
    }
    if !s.sending.Idle? {
      assert s.logic.queue[0] == s.sending.r == s.logic.posted[|s.logic.taken|];
    }
  }

  lemma AcceptInv(cfg: Config, s: Server)
    requires Inv(cfg, s)
    ensures Inv(cfg, Next(cfg, s, Accept))
  {
    hide SessionInv, L.Inv;
    NoPast(cfg, s);
    StartedInv(cfg, s.logic, s.sending, |s.sessions|);
    var n := Next(cfg, s, Accept);
    assert n.sessions == s.sessions + [STARTED] && n.logic == s.logic && n.sending == s.sending;
  }

  lemma StepInv(cfg: Config, s: Server, st: Step)
    requires Inv(cfg, s) && Enabled(cfg, s, st)
    ensures Inv(cfg, Next(cfg, s, st))
  {
    hide SessionInv, L.Inv;
    match st
    case Logic(ls) => LogicStepInv(cfg, s, ls);
    case HandlerCall => HandlerCallInv(cfg, s);
    case HandlerReturn => HandlerReturnInv(cfg, s);
    case Write(i, ws) => WriteInv(cfg, s, i, ws);
    case WriteFails(i, k, n) => WriteFailsInv(cfg, s, i, k, n);
    case PostEnter(i) => PostEnterInv(cfg, s, i);
    case PostStep(i) => PostStepInv(cfg, s, i);
    case Accept => AcceptInv(cfg, s);
    case ServerLock(t) =>
    case ServerUnlock =>
    case _ => CoroutineInv(cfg, s, st);
  }

  lemma {:induction false} RunInv(cfg: Config, s: Server, sts: seq<Step>)
    requires Inv(cfg, s) && Legal(cfg, s, sts)
    ensures Inv(cfg, Run(cfg, s, sts))
    decreases |sts|
  {
    hide Inv, Next, Enabled;
    if sts != [] {
      StepInv(cfg, s, sts[0]);
      RunInv(cfg, Next(cfg, s, sts[0]), sts[1..]);
    }
  }

  lemma {:induction false} RunSnoc(cfg: Config, s: Server, sts: seq<Step>)
    requires Legal(cfg, s, sts) && sts != []
    ensures var before, last := sts[..|sts| - 1], sts[|sts| - 1];
            && Legal(cfg, s, before) && Enabled(cfg, Run(cfg, s, before), last)
            && Run(cfg, s, sts) == Next(cfg, Run(cfg, s, before), last)
    decreases |sts|
  {
    hide Next, Enabled;
    if |sts| == 1 {
      assert sts[..0] == [] && sts[1..] == [] && Legal(cfg, s, []);
      assert Run(cfg, Next(cfg, s, sts[0]), []) == Next(cfg, s, sts[0]);
    } else {
      RunSnoc(cfg, Next(cfg, s, sts[0]), sts[1..]);
      assert sts[1..][..|sts| - 2] == sts[..|sts| - 1][1..];
    }
  }

  lemma {:induction false} RunAppend(cfg: Config, s: Server, a: seq<Step>, st: Step)
    requires Legal(cfg, s, a) && Enabled(cfg, Run(cfg, s, a), st)
    ensures Legal(cfg, s, a + [st]) && Run(cfg, s, a + [st]) == Next(cfg, Run(cfg, s, a), st)
    decreases |a|
  {
    hide Next, Enabled;
    if a == [] {
      var n := Next(cfg, s, st);
      assert (a + [st])[1..] == [] && Legal(cfg, n, []) && Run(cfg, n, []) == n;
    } else {
      RunAppend(cfg, Next(cfg, s, a[0]), a[1..], st);
      assert (a + [st])[1..] == a[1..] + [st];
    }
  }

  lemma BootInv(cfg: Config)
    ensures Inv(cfg, Boot(cfg))
  {
  }

  // ---------------------------------------------------------------- end to end

  lemma OfferedIsPrefix(cfg: Config, s: Server, i: nat)
    requires Inv(cfg, s) && i < |s.sessions|
    ensures s.sessions[i].writer.offered <= AnswersTo(cfg, s.sessions[i].asked)
    ensures s.logic.queue == [] ==> s.sessions[i].writer.offered == AnswersTo(cfg, s.sessions[i].asked)
  {
    var l := s.logic;
    assert SessionInv(cfg, l, s.sending, i, s.sessions[i]);
    hide Inv, SessionInv, AnswersTo, Of, AnswerFrame;
    if l.queue == [] {
      assert l.taken == l.posted && s.sending.Idle?;
      assert AnswersTo(cfg, Of(i, l.taken)) + [] == AnswersTo(cfg, Of(i, l.taken));
    } else {
      OfferedOfFront(cfg, l.taken, l.queue, s.sending, i);
    }
  }

  /** While a request is queued: the answers to the requests taken, and perhaps to the first one queued. */
  lemma OfferedOfFront(cfg: Config, taken: seq<L.Request>, queue: seq<L.Request>, sending: Sending, i: nat)
    requires queue != [] && (sending.After? ==> sending.r == queue[0] && sending.r.id in cfg.ids)
    ensures AnswersTo(cfg, Of(i, taken)) + Extra(cfg, sending, i) <= AnswersTo(cfg, Of(i, taken + queue))
  {
    hide AnswersTo, Of, AnswerFrame;
    var r := queue[0];
    assert taken + [r] <= taken + queue;
    OfPrefix(i, taken + [r], taken + queue);
    AnswersPrefix(cfg, Of(i, taken + [r]), Of(i, taken + queue));
    TakenSnoc(cfg, i, taken, r);
    assert AnswersTo(cfg, Of(i, taken)) + [] == AnswersTo(cfg, Of(i, taken));
  }

  lemma AskedIsPrefix(cfg: Config, s: Server, i: nat)
    requires Inv(cfg, s) && i < |s.sessions|
    ensures s.sessions[i].asked <= F.Parse(F.Head, s.sessions[i].received).msgs
  {
    assert SessionInv(cfg, s.logic, s.sending, i, s.sessions[i]);
    hide F.Parse;
  }

  /** What was accepted, and what is on the wire, of a list of frames whose first ones were offered. */
  lemma WireFollows(w: W.Writer, answers: seq<Octets>)
    requires W.Inv(w) && w.offered <= answers
    ensures Subsequence(w.accepted, answers)
    ensures w.wire <= Flatten(w.accepted)
    ensures |w.accepted| == |w.offered| ==> w.wire <= Flatten(answers)
  {
    W.WireIsPrefix(w);
    assert W.WireInv(w);
    hide Flatten, Subsequence, W.TokenInv, W.LockInv;
    assert answers == w.offered + answers[|w.offered|..];
    SubsequenceExtend(w.accepted, w.offered, answers[|w.offered|..]);
    SubsequenceLength(w.accepted, w.offered);
    if |w.accepted| == |w.offered| {
      FlattenPrefix(w.accepted, answers);
    }
  }

  lemma WireIsComplete(cfg: Config, s: Server, i: nat)
    requires Inv(cfg, s) && i < |s.sessions|
    ensures var x := s.sessions[i];
            && (s.logic.queue == [] && x.writer.queue == [] && |x.writer.accepted| == |x.writer.offered| ==>
                  x.writer.wire == Flatten(AnswersTo(cfg, x.asked)))
            && (!x.co.PostWant? && !x.co.Posting? ==> x.asked == F.Parse(F.Head, x.received).msgs)
  {
    OfferedIsPrefix(cfg, s, i);
    assert SessionInv(cfg, s.logic, s.sending, i, s.sessions[i]);
    hide SenderInv, HistoryInv, PosterInv, F.Parse, AnswersTo, AnswerFrame, Flatten;
    var w := s.sessions[i].writer;
    SubsequenceLength(w.accepted, w.offered);
    W.WireIsPrefix(w);
  }

  /** In every session of every run the right to write is held once, as `SingleWriter` says. */
  lemma SingleWriterPerSession(cfg: Config, sts: seq<Step>, i: nat)
    requires Legal(cfg, Boot(cfg), sts) && i < |Run(cfg, Boot(cfg), sts).sessions|
    ensures var w := Run(cfg, Boot(cfg), sts).sessions[i].writer;
            |W.TokenThreads(w)| + |w.flights| == (if w.queue == [] || w.failed then 0 else 1)
  {
    BootInv(cfg);
    RunInv(cfg, Boot(cfg), sts);
    var s := Run(cfg, Boot(cfg), sts);
    assert SessionInv(cfg, s.logic, s.sending, i, s.sessions[i]);
    W.TokenCount(s.sessions[i].writer);
  }

  /** When the logic thread leaves its loop, every request posted so far has had its answer offered. */
  lemma ExitAnswersEverything(cfg: Config, s: Server, ls: L.Step, i: nat)
    requires Inv(cfg, s) && Enabled(cfg, s, Logic(ls)) && i < |s.sessions|
    requires !s.logic.phase.Exited? && L.Next(s.logic, ls).phase.Exited?
    ensures var n := Next(cfg, s, Logic(ls));
            && n.logic.taken == n.logic.posted
            && n.sessions[i].writer.offered == AnswersTo(cfg, n.sessions[i].asked)
  {
    L.ExitDrains(s.logic, ls);
    StepInv(cfg, s, Logic(ls));
    hide Inv;
    OfferedIsPrefix(cfg, Next(cfg, s, Logic(ls)), i);
  }

  // ---------------------------------------------------------------- locks

  datatype Lock = LogicLock | SessionLock(i: nat) | MapLock

  function Wants(s: Server, t: Thread): W.Option<Lock> {
    if t in s.waiting then W.Some(MapLock)
    else
      match t
      case WorkerT =>
        if s.logic.phase.Outside? || s.logic.phase.Woken? then W.Some(LogicLock)
        else if !s.sending.Idle? && Doing(s, s.sending.r.session, WORKER) == W.Some(true)
        then W.Some(SessionLock(s.sending.r.session)) else W.None
      case CoT(i) => if i < |s.sessions| && s.sessions[i].co.PostWant? then W.Some(LogicLock) else W.None
      case CallbackT(i, n) =>
        if Doing(s, i, W.Callback(n)) == W.Some(true) then W.Some(SessionLock(i)) else W.None
      case AcceptorT(_) => W.None
  }

  /** For a thread inside the sending code of session `i`: whether it is waiting for the mutex. */
  function Doing(s: Server, i: nat, t: W.Tid): W.Option<bool> {
    if i < |s.sessions| && t in s.sessions[i].writer.threads
    then W.Some(s.sessions[i].writer.threads[t].WantSend? || s.sessions[i].writer.threads[t].WantPop?)
    else W.None
  }

  ghost predicate Holds(s: Server, t: Thread, k: Lock) {
    match k
    case MapLock => s.holder == W.Some(t)
    case LogicLock =>
      (t == WorkerT && s.logic.phase.HoldsMutex()) || (t.CoT? && !s.logic.poster.Nobody? && s.logic.poster.who == t.i)
    case SessionLock(i) =>
      && i < |s.sessions|
      && match t
         case WorkerT => s.sessions[i].writer.owner == W.Some(WORKER)
         case CallbackT(j, n) => i == j && s.sessions[i].writer.owner == W.Some(W.Callback(n))
         case _ => false
  }

  ghost predicate WaitsFor(s: Server, t: Thread, u: Thread) {
    Wants(s, t).Some? && Holds(s, u, Wants(s, t).value)
  }

  // The locks are those that the steps really take: a thread about to lock a mutex is one that wants it,
  // and it can do so exactly when nobody holds it.

  lemma LogicLockStep(cfg: Config, s: Server, i: nat)
    requires Inv(cfg, s)
    ensures s.logic.MutexFree() <==> forall v :: !Holds(s, v, LogicLock)
    ensures (s.logic.phase.Outside? || s.logic.phase.Woken?) && WorkerT !in s.waiting ==>
              && Wants(s, WorkerT) == W.Some(LogicLock)
              && (Enabled(cfg, s, Logic(L.Lock)) <==> forall v :: !Holds(s, v, LogicLock))
    ensures i < |s.sessions| && s.sessions[i].co.PostWant? && CoT(i) !in s.waiting ==>
              && Wants(s, CoT(i)) == W.Some(LogicLock)
              && (Enabled(cfg, s, PostEnter(i)) <==> forall v :: !Holds(s, v, LogicLock))
  {
    hide SessionInv, L.Inv;
    if s.logic.phase.HoldsMutex() {
      assert Holds(s, WorkerT, LogicLock);
    } else if !s.logic.poster.Nobody? {
      assert Holds(s, CoT(s.logic.poster.who), LogicLock);
    }
  }

  lemma SessionLockStep(cfg: Config, s: Server, i: nat, t: W.Tid)
    requires Inv(cfg, s)
    requires i < |s.sessions| && Doing(s, i, t) == W.Some(true)
    ensures Enabled(cfg, s, Write(i, W.Acquire(t))) <==> forall v :: !Holds(s, v, SessionLock(i))
    ensures t.Callback? && CallbackT(i, t.n) !in s.waiting ==> Wants(s, CallbackT(i, t.n)) == W.Some(SessionLock(i))
    ensures t.Sender? && WorkerT !in s.waiting ==> t == WORKER && Wants(s, WorkerT) == W.Some(SessionLock(i))
  {
    hide SessionInv, LogicInv, Holds;
    OwnerHolds(cfg, s, i);
    if t.Sender? {
      SenderIsWorker(cfg, s, i, t);
    }
  }

  lemma SenderIsWorker(cfg: Config, s: Server, i: nat, t: W.Tid)
    requires Inv(cfg, s) && i < |s.sessions| && t in s.sessions[i].writer.threads && t.Sender?
    ensures t == WORKER && !s.sending.Idle? && s.sending.r.session == i && s.logic.phase.InHandler()
  {
    assert SessionInv(cfg, s.logic, s.sending, i, s.sessions[i]);
    assert SenderInv(cfg, s.sending, i, s.sessions[i]);
    hide SessionInv, L.Inv;
  }

  /** Whoever owns a session's mutex is a thread of the server. */
  lemma OwnerHolds(cfg: Config, s: Server, i: nat)
    requires i < |s.sessions| && SessionInv(cfg, s.logic, s.sending, i, s.sessions[i])
    ensures s.sessions[i].writer.owner == W.None <==> forall v :: !Holds(s, v, SessionLock(i))
  {
    hide SessionInv;
    var o := s.sessions[i].writer.owner;
    if o.Some? {
      OwnerIsKnown(cfg, s, i);
      assert Holds(s, if o.value.Callback? then CallbackT(i, o.value.n) else WorkerT, SessionLock(i));
    }
  }

  lemma OwnerIsKnown(cfg: Config, s: Server, i: nat)
    requires i < |s.sessions| && SessionInv(cfg, s.logic, s.sending, i, s.sessions[i])
    requires s.sessions[i].writer.owner.Some?
    ensures s.sessions[i].writer.owner.value.Sender? ==> s.sessions[i].writer.owner.value == WORKER
  {
    var w := s.sessions[i].writer;
    assert W.LockInv(w) && SenderInv(cfg, s.sending, i, s.sessions[i]);
    hide W.Inv, SessionInv;
    assert w.owner.value in w.threads;
  }

  lemma MapLockStep(cfg: Config, s: Server, t: Thread)
    requires t in s.waiting
    ensures Wants(s, t) == W.Some(MapLock)
    ensures Enabled(cfg, s, ServerLock(t)) <==> forall v :: !Holds(s, v, MapLock)
  {
    if s.holder.Some? {
      assert Holds(s, s.holder.value, MapLock);
    }
  }

  /** What a thread at the server's mutex is not doing at the same time. */
  ghost predicate Elsewhere(s: Server, t: Thread) {
    match t
    case WorkerT => false
    case CoT(i) => i < |s.sessions| && s.sessions[i].co.Ending?
    case CallbackT(i, n) => i < |s.sessions| && W.Callback(n) !in s.sessions[i].writer.threads
    case AcceptorT(i) => i < |s.sessions|
  }

  /** A thread at the server's mutex is doing nothing else. */
  ghost predicate MutexInv(s: Server) {
    && (forall t :: !s.IdleAtMutex(t) ==> Elsewhere(s, t))
    && (s.holder.Some? ==> s.holder.value !in s.waiting)
  }

  lemma MutexStepInv(cfg: Config, s: Server, st: Step)
    requires MutexInv(s) && Enabled(cfg, s, st)
    ensures MutexInv(Next(cfg, s, st))
  {
    hide F.AfterHead, AnswerFrame, L.Next, L.Enabled, W.Writer.LeaveSend, W.Writer.LeavePop;
    var n := Next(cfg, s, st);
    if st.Write? {
      ThreadsOfWrite(s.sessions[st.i].writer, st.ws);
    }
    forall t | !n.IdleAtMutex(t) ensures Elsewhere(n, t) {
      if !s.IdleAtMutex(t) {
        assert Elsewhere(s, t);
      }
    }
    if n.holder.Some? && n.holder == s.holder {
      assert !s.IdleAtMutex(n.holder.value) && Elsewhere(s, n.holder.value);
    }
  }

  lemma ThreadsOfWrite(w: W.Writer, ws: W.Step)
    requires W.Enabled(w, ws)
    ensures forall t :: t in W.Next(w, ws).threads ==>
              t in w.threads || (ws.Begin? && t == ws.t) || (ws.Complete? && t == ws.t)
  {
  }

  lemma {:induction false} MutexRunInv(cfg: Config, s: Server, sts: seq<Step>)
    requires MutexInv(s) && Legal(cfg, s, sts)
    ensures MutexInv(Run(cfg, s, sts))
    decreases |sts|
  {
    hide MutexInv, Next, Enabled;
    if sts != [] {
      MutexStepInv(cfg, s, sts[0]);
      MutexRunInv(cfg, Next(cfg, s, sts[0]), sts[1..]);
    }
  }

  /** Who can be inside the mutexes: a posting coroutine, and the owner of each session's mutex. */
  lemma LockOwners(cfg: Config, s: Server)
    requires Inv(cfg, s)
    ensures forall i :: 0 <= i < |s.sessions| ==>
              && PosterInv(s.logic.poster, i, s.sessions[i]) && W.LockInv(s.sessions[i].writer)
  {
    forall i | 0 <= i < |s.sessions|
      ensures PosterInv(s.logic.poster, i, s.sessions[i]) && W.LockInv(s.sessions[i].writer)
    {
      assert SessionInv(cfg, s.logic, s.sending, i, s.sessions[i]);
    }
  }

  /** The lock order: only the logic thread ever waits for one lock while holding another. */
  lemma HoldAndWait(cfg: Config, s: Server, t: Thread, k: Lock)
    requires Inv(cfg, s) && MutexInv(s)
    requires Wants(s, t).Some? && Holds(s, t, k)
    ensures t == WorkerT && k == LogicLock && Wants(s, t).value.SessionLock?
  {
    hide SessionInv, L.Inv;
    LockOwners(cfg, s);
    WorkerSendsOnce(cfg, s);
    hide Inv;
    assert !s.IdleAtMutex(t) ==> Elsewhere(s, t);
  }

  /** The logic thread is inside the mutex of the session it answers, and of no other. */
  lemma WorkerSendsOnce(cfg: Config, s: Server)
    requires Inv(cfg, s)
    ensures forall i :: 0 <= i < |s.sessions| && WORKER in s.sessions[i].writer.threads ==>
              !s.sending.Idle? && s.sending.r.session == i && s.logic.phase.HoldsMutex()
  {
    forall i | 0 <= i < |s.sessions| && WORKER in s.sessions[i].writer.threads
      ensures !s.sending.Idle? && s.sending.r.session == i
    {
      assert SessionInv(cfg, s.logic, s.sending, i, s.sessions[i]);
    }
    hide SessionInv, L.Inv;
  }

  /** The thread at place `j` of a cycle waits for the one after it. */
  ghost predicate Edge(s: Server, cycle: seq<Thread>, j: nat)
    requires j < |cycle|
  {
    WaitsFor(s, cycle[j], cycle[if j + 1 < |cycle| then j + 1 else 0])
  }

  /** No reachable state has a cycle of threads each waiting for a lock that the next one holds. */
  lemma DeadlockFreedom(cfg: Config, sts: seq<Step>, cycle: seq<Thread>)
    requires Legal(cfg, Boot(cfg), sts) && cycle != []
    ensures var s := Run(cfg, Boot(cfg), sts);
            exists j :: 0 <= j < |cycle| && !Edge(s, cycle, j)
  {
    BootInv(cfg);
    RunInv(cfg, Boot(cfg), sts);
    MutexRunInv(cfg, Boot(cfg), sts);
    hide Inv, MutexInv, Run, Legal, Edge;
    NoCycle(cfg, Run(cfg, Boot(cfg), sts), cycle);
  }

  lemma NoCycle(cfg: Config, s: Server, cycle: seq<Thread>)
    requires Inv(cfg, s) && MutexInv(s) && cycle != []
    ensures exists j :: 0 <= j < |cycle| && !Edge(s, cycle, j)
  {
    hide Inv, MutexInv, Holds, Wants;
    if forall j :: 0 <= j < |cycle| ==> Edge(s, cycle, j) {
      var second := if 1 < |cycle| then 1 else 0;
      assert Edge(s, cycle, |cycle| - 1) && Edge(s, cycle, 0) && Edge(s, cycle, second);
      HoldAndWait(cfg, s, cycle[0], Wants(s, cycle[|cycle| - 1]).value);
      HoldAndWait(cfg, s, cycle[second], Wants(s, cycle[0]).value);
    }
  }

  /** The step by which the thread `t` of session `i` gets on with its critical section or its write. */
  function OnWith(i: nat, t: W.Tid, ph: W.Phase): Step {
    match ph
    case Gap(_) => Write(i, W.Issue(t))
    case _ => Write(i, if ph.Holds() then W.Leave(t) else W.Acquire(t))
  }

  /** Whoever is inside a session's mutex can leave it. */
  lemma SessionLockMoves(cfg: Config, s: Server, i: nat)
    requires Inv(cfg, s) && i < |s.sessions| && s.sessions[i].writer.owner.Some?
    ensures Enabled(cfg, s, Write(i, W.Leave(s.sessions[i].writer.owner.value)))
  {
    assert SessionInv(cfg, s.logic, s.sending, i, s.sessions[i]);
    var w := s.sessions[i].writer;
    assert W.LockInv(w) && W.TokenInv(w) && W.WireInv(w);
  }

  /**
   * The logic thread inside its mutex can move, or it waits for the mutex of one session, whose
   * holder can move.
   */
  lemma LogicLockMoves(cfg: Config, s: Server)
    requires Inv(cfg, s) && s.logic.phase.HoldsMutex()
    ensures Enabled(cfg, s, Logic(L.WorkerNext(s.logic)))
         || Enabled(cfg, s, HandlerCall) || Enabled(cfg, s, HandlerReturn)
         || (!s.sending.Idle? && s.sending.r.session < |s.sessions|
             && var i, w := s.sending.r.session, s.sessions[s.sending.r.session].writer;
                && WORKER in w.threads
                && (Enabled(cfg, s, OnWith(i, WORKER, w.threads[WORKER]))
                    || (w.owner.Some? && Enabled(cfg, s, Write(i, W.Leave(w.owner.value))))))
  {
    var l := s.logic;
    match l.phase
    case Inside => assert Enabled(cfg, s, Logic(L.Test));
    case Blocking => assert Enabled(cfg, s, Logic(L.Sleep));
    case Ready => assert Enabled(cfg, s, Logic(L.Look));
    case Drain => assert Enabled(cfg, s, Logic(L.DrainOne));
    case Dispatch(r) =>
      assert l.posted[|l.taken|] == r;
      HandlerMoves(cfg, s, r);
    case DrainDispatch(r) =>
      assert l.posted[|l.taken|] == r;
      HandlerMoves(cfg, s, r);
    case _ =>
  }

  lemma HandlerMoves(cfg: Config, s: Server, r: L.Request)
    requires Inv(cfg, s) && r.session < |s.sessions| && s.logic.queue != []
    requires s.logic.phase == L.Dispatch(r) || s.logic.phase == L.DrainDispatch(r)
    ensures var i, w := r.session, s.sessions[r.session].writer;
            if s.sending.Idle? then Enabled(cfg, s, HandlerCall)
            else s.sending.r == r
                 && if WORKER !in w.threads then Enabled(cfg, s, HandlerReturn)
                    else Enabled(cfg, s, OnWith(i, WORKER, w.threads[WORKER]))
                         || (w.owner.Some? && Enabled(cfg, s, Write(i, W.Leave(w.owner.value))))
  {
    hide SessionInv, L.Inv, AnswerFrame;
    assert SessionInv(cfg, s.logic, s.sending, r.session, s.sessions[r.session]);
    assert !s.sending.Idle? ==> s.sending.r == r;
    hide Inv, LogicInv;
    WorkerPhase(cfg, s.logic, s.sending, r, s.sessions[r.session]);
    if s.sessions[r.session].writer.owner.Some? {
      SessionLockMoves(cfg, s, r.session);
    }
  }

  /** What the logic thread is doing in the session of the request it handles. */
  lemma WorkerPhase(cfg: Config, l: L.Logic, g: Sending, r: L.Request, x: Session)
    requires SessionInv(cfg, l, g, r.session, x) && (g.Idle? || g.r == r)
    ensures var th := x.writer.threads;
            && (g.Idle? ==> WORKER !in th)
            && (g.Before? ==> WORKER in th && (th[WORKER].WantSend? || th[WORKER].InSend?))
            && (g.After? && WORKER in th ==> th[WORKER].Gap?)
  {
  }
}
