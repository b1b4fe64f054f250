/**
 * The sending side of an S12 session: any number of threads call `send`, write completions run on
 * threads of their own, and every `async_write` is issued after the mutex has been released.
 */
module WriteToken {
  import opened Bytes

  const MAX_SENDQUE_SIZE := 1000

  datatype Option<T> = None | Some(value: T)

  datatype Tid = Sender(n: nat) | Callback(n: nat)

  /** What a thread inside `send` or `write_callback_` is doing; threads not listed are elsewhere. */
  datatype Phase =
    | WantSend(f: Octets)     // in `send`, waiting for the mutex
    | InSend(f: Octets)       // in `send`, holding it
    | WantPop                 // in `write_callback_` after a success, waiting for the mutex
    | InPop                   // in `write_callback_`, holding it
    | Gap(node: Octets)       // mutex released, `async_write` of `node` not yet issued
  {
    predicate Holds() { InSend? || InPop? }

    /** The thread is responsible for the next write. */
    predicate Token() { WantPop? || InPop? || Gap? }
  }

  datatype Flight = Flight(node: Octets, sent: nat)

  /** Where the right to write is. */
  datatype Token = Nowhere | AtThread(t: Tid) | InFlight

  /**
   * `flights` lists all writes issued and not completed. The other fields from `token` on are
   * histories; `onWire` counts the bytes of the front already sent.
   */
  datatype Writer = Writer(
    owner: Option<Tid>,
    threads: map<Tid, Phase>,
    queue: seq<Octets>,
    flights: seq<Flight>,
    token: Token,
    offered: seq<Octets>,
    accepted: seq<Octets>,
    popped: seq<Octets>,
    wire: Octets,
    onWire: nat,
    failed: bool)
  {
    /** The critical section of `send`, up to and including the unlock. */
    function LeaveSend(t: Tid, f: Octets): Writer {
      var w := this.(owner := None, offered := offered + [f]);
      if |queue| > MAX_SENDQUE_SIZE then w.(threads := threads - {t})
      else
        var q := queue + [f];
        var v := w.(queue := q, accepted := accepted + [f]);
        if |queue| > 0 then v.(threads := threads - {t})
        else v.(threads := threads[t := Gap(q[0])], token := AtThread(t))
    }

    /** The critical section of `write_callback_`. */
    function LeavePop(t: Tid): Writer
      requires queue != []
    {
      var q := queue[1..];
      var w := this.(owner := None, queue := q, popped := popped + [queue[0]], onWire := 0);
      if q == [] then w.(threads := threads - {t}, token := Nowhere)
      else w.(threads := threads[t := Gap(q[0])], token := AtThread(t))
    }
  }

  datatype Step =
    | Begin(t: Tid, f: Octets)
    | Acquire(t: Tid)
    | Leave(t: Tid)
    | Issue(t: Tid)
    | Progress(k: nat, n: nat)
    | Complete(k: nat, t: Tid)
    | Fail(k: nat)

  predicate Enabled(w: Writer, st: Step) {
    match st
    case Begin(t, _) => t !in w.threads
    case Acquire(t) => t in w.threads && w.owner == None && (w.threads[t].WantSend? || w.threads[t].WantPop?)
    case Leave(t) => t in w.threads && (w.threads[t].InSend? || (w.threads[t].InPop? && w.queue != []))
    case Issue(t) => t in w.threads && w.threads[t].Gap?
    case Progress(k, n) => k < |w.flights| && n <= |w.flights[k].node| - w.flights[k].sent
    case Complete(k, t) => k < |w.flights| && w.flights[k].sent == |w.flights[k].node| && t !in w.threads
    case Fail(k) => k < |w.flights|
  }

  function Next(w: Writer, st: Step): Writer
    requires Enabled(w, st)
  {
    match st
    case Begin(t, f) => w.(threads := w.threads[t := WantSend(f)])
    case Acquire(t) =>
      w.(owner := Some(t),
         threads := w.threads[t := if w.threads[t].WantSend? then InSend(w.threads[t].f) else InPop])
    case Leave(t) => if w.threads[t].InSend? then w.LeaveSend(t, w.threads[t].f) else w.LeavePop(t)
    case Issue(t) =>
      w.(threads := w.threads - {t}, flights := w.flights + [Flight(w.threads[t].node, 0)], token := InFlight)
    case Progress(k, n) =>
      var fl := w.flights[k];
      w.(flights := w.flights[k := Flight(fl.node, fl.sent + n)],
         wire := w.wire + fl.node[fl.sent..fl.sent + n], onWire := fl.sent + n)
    case Complete(k, t) =>
      w.(flights := w.flights[..k] + w.flights[k + 1..], threads := w.threads[t := WantPop], token := AtThread(t))
    case Fail(k) =>
      w.(flights := w.flights[..k] + w.flights[k + 1..], token := Nowhere, failed := true)
  }

  predicate Legal(w: Writer, sts: seq<Step>)
    decreases |sts|
  {
    sts != [] ==> Enabled(w, sts[0]) && Legal(Next(w, sts[0]), sts[1..])
  }

  function Run(w: Writer, sts: seq<Step>): Writer
    requires Legal(w, sts)
    decreases |sts|
  {
    if sts == [] then w else Run(Next(w, sts[0]), sts[1..])
  }

  const IDLE := Writer(None, map[], [], [], Nowhere, [], [], [], [], 0, false)

  /** Mutual exclusion. */
  ghost predicate LockInv(w: Writer) {
    forall t :: t in w.threads && w.threads[t].Holds() <==> w.owner == Some(t)
  }

  /** The token is where `token` says, once, and a holder's node is the front of the queue. */
  ghost predicate TokenInv(w: Writer) {
    && (forall t :: t in w.threads && w.threads[t].Token() <==> w.token == AtThread(t))
    && |w.flights| == (if w.token.InFlight? then 1 else 0)
    && (w.token.Nowhere? <==> w.queue == [] || w.failed)
    && (w.failed ==> w.queue != [])
    && (forall t :: t in w.threads && w.threads[t].Gap? ==> w.queue != [] && w.threads[t].node == w.queue[0])
    && (w.flights != [] ==> w.queue != [] && w.flights[0].node == w.queue[0])
  }

  ghost predicate WireInv(w: Writer) {
    && |w.queue| <= MAX_SENDQUE_SIZE + 1
    && w.popped + w.queue == w.accepted
    && Subsequence(w.accepted, w.offered)
    && (|w.offered| <= MAX_SENDQUE_SIZE + 1 ==> w.accepted == w.offered)
    && (w.queue == [] ==> w.onWire == 0)
    && (w.queue != [] ==> w.onWire <= |w.queue[0]|)
    && w.wire == Flatten(w.popped) + (if w.queue == [] then [] else w.queue[0][..w.onWire])
    && (w.flights != [] ==> w.onWire == w.flights[0].sent)
    && (forall t :: t in w.threads && w.threads[t].Gap? ==> w.onWire == 0)
    && (forall t :: t in w.threads && (w.threads[t].WantPop? || w.threads[t].InPop?) ==>
          w.queue != [] && w.onWire == |w.queue[0]|)
  }

  ghost predicate Inv(w: Writer) {
    LockInv(w) && TokenInv(w) && WireInv(w)
  }

  lemma LeaveSendToken(w: Writer, t: Tid, f: Octets)
    requires LockInv(w) && TokenInv(w) && t in w.threads && w.threads[t] == InSend(f)
    ensures var v := w.LeaveSend(t, f); LockInv(v) && TokenInv(v)
  {
  }

  lemma LeaveSendWire(w: Writer, t: Tid, f: Octets)
    requires TokenInv(w) && WireInv(w) && t in w.threads && w.threads[t] == InSend(f)
    ensures WireInv(w.LeaveSend(t, f))
  {
    hide Flatten, Subsequence, TokenInv, WireInv;
    if |w.queue| > MAX_SENDQUE_SIZE {
      RefusedWire(w, t, f);
    } else if w.queue == [] {
      FirstWire(w, t, f);
    } else {
      QueuedWire(w, t, f);
    }
  }

  lemma RefusedWire(w: Writer, t: Tid, f: Octets)
    requires WireInv(w) && |w.queue| > MAX_SENDQUE_SIZE
    ensures WireInv(w.LeaveSend(t, f))
  {
    hide Flatten, Subsequence;
    SubsequenceSkip(w.accepted, w.offered, f);
  }

  lemma FirstWire(w: Writer, t: Tid, f: Octets)
    requires TokenInv(w) && WireInv(w) && w.queue == []
    ensures WireInv(w.LeaveSend(t, f))
  {
    hide Flatten, Subsequence;
    SubsequenceKeep(w.accepted, w.offered, f);
    AppendTwice(w.popped, w.queue, f);
    NothingSent(Flatten(w.popped), w.queue);
    NothingSent(Flatten(w.popped), w.queue + [f]);
  }

  lemma QueuedWire(w: Writer, t: Tid, f: Octets)
    requires WireInv(w) && 0 < |w.queue| <= MAX_SENDQUE_SIZE
    ensures WireInv(w.LeaveSend(t, f))
  {
    hide Flatten, Subsequence;
    SubsequenceKeep(w.accepted, w.offered, f);
    AppendTwice(w.popped, w.queue, f);
    assert (w.queue + [f])[0] == w.queue[0];
  }

  lemma AppendTwice(a: seq<Octets>, b: seq<Octets>, f: Octets)
    ensures a + (b + [f]) == a + b + [f]
  {
  }

  lemma LeavePopInv(w: Writer, t: Tid)
    requires Inv(w) && t in w.threads && w.threads[t].InPop?
    ensures w.queue != [] && Inv(w.LeavePop(t))
  {
    hide Flatten, Subsequence;
    assert w.token == AtThread(t);
    LeavePopWire(w, t);
    hide WireInv;
  }

  lemma LeavePopWire(w: Writer, t: Tid)
    requires TokenInv(w) && WireInv(w) && w.token == AtThread(t) && t in w.threads && w.threads[t].InPop?
    requires w.queue != []
    ensures WireInv(w.LeavePop(t))
  {
    hide Flatten, Subsequence;
    var f, q := w.queue[0], w.queue[1..];
    FlattenSnoc(w.popped, f);
    assert f[..|f|] == f && w.queue == [f] + q;
    AppendFront(w.popped, f, q);
    NothingSent(Flatten(w.popped) + f, q);
  }

  lemma AppendFront(a: seq<Octets>, f: Octets, q: seq<Octets>)
    ensures a + ([f] + q) == a + [f] + q
  {
  }

  lemma NothingSent(wire: Octets, q: seq<Octets>)
    ensures wire + (if q == [] then [] else q[0][..0]) == wire
  {
  }

  lemma ProgressInv(w: Writer, k: nat, n: nat)
    requires Inv(w) && Enabled(w, Progress(k, n))
    ensures Inv(Next(w, Progress(k, n)))
  {
    hide Flatten, Subsequence;
    Lengthen(Flatten(w.popped), w.flights[k].node, w.flights[k].sent, n);
  }

  lemma Lengthen(sofar: Octets, node: Octets, sent: nat, n: nat)
    requires sent + n <= |node|
    ensures sofar + node[..sent] + node[sent..sent + n] == sofar + node[..sent + n]
  {
    assert node[..sent] + node[sent..sent + n] == node[..sent + n];
    assert sofar + node[..sent] + node[sent..sent + n] == sofar + (node[..sent] + node[sent..sent + n]);
  }

  predicate Simple(st: Step) {
    !st.Leave? && !st.Progress?
  }

  lemma SimpleTokenInv(w: Writer, st: Step)
    requires LockInv(w) && TokenInv(w) && Enabled(w, st) && Simple(st)
    ensures LockInv(Next(w, st)) && TokenInv(Next(w, st))
  {
  }

  lemma SimpleWireInv(w: Writer, st: Step)
    requires TokenInv(w) && WireInv(w) && Enabled(w, st) && Simple(st)
    ensures WireInv(Next(w, st))
  {
    hide Flatten, Subsequence;
  }

  lemma StepInv(w: Writer, st: Step)
    requires Inv(w) && Enabled(w, st)
    ensures Inv(Next(w, st))
  {
    hide Flatten, Subsequence, LockInv, TokenInv, WireInv;
    match st
    case Leave(t) =>
      if w.threads[t].InSend? {
        LeaveSendToken(w, t, w.threads[t].f);
        LeaveSendWire(w, t, w.threads[t].f);
      } else {
        LeavePopInv(w, t);
      }
    case Progress(k, n) => ProgressInv(w, k, n);
    case _ => SimpleTokenInv(w, st); SimpleWireInv(w, st);
  }

  lemma {:induction false} RunInv(w: Writer, sts: seq<Step>)
    requires Inv(w) && Legal(w, sts)
    ensures Inv(Run(w, sts))
    decreases |sts|
  {
    hide Inv;
    if sts != [] {
      StepInv(w, sts[0]);
      RunInv(Next(w, sts[0]), sts[1..]);
    }
  }

  ghost function TokenThreads(w: Writer): set<Tid> {
    set t | t in w.threads && w.threads[t].Token()
  }

  lemma TokenCount(w: Writer)
    requires Inv(w)
    ensures |TokenThreads(w)| + |w.flights| == (if w.queue == [] || w.failed then 0 else 1)
  {
    if w.token.AtThread? {
      assert TokenThreads(w) == {w.token.t};
    } else {
      assert TokenThreads(w) == {};
    }
  }

  /**
   * Under every interleaving of any number of senders and completions: threads about to issue a
   * write, completions about to pop, and writes in flight are one in all while the queue is
   * non-empty and no write has failed, and none otherwise; what any of them holds is the front.
   */
  lemma SingleWriter(sts: seq<Step>)
    requires Legal(IDLE, sts)
    ensures var w := Run(IDLE, sts);
            && |TokenThreads(w)| + |w.flights| == (if w.queue == [] || w.failed then 0 else 1)
            && (forall t :: t in w.threads && w.threads[t].Gap? ==> w.queue != [] && w.threads[t].node == w.queue[0])
            && (forall t :: t in w.threads && w.threads[t].InPop? ==> w.queue != [])
            && (w.flights != [] ==> w.queue != [] && w.flights[0].node == w.queue[0])
            && |w.queue| <= MAX_SENDQUE_SIZE + 1
  {
    RunInv(IDLE, sts);
    TokenCount(Run(IDLE, sts));
  }

  /** At most one thread is inside the mutex. */
  lemma MutualExclusion(sts: seq<Step>, t: Tid, u: Tid)
    requires Legal(IDLE, sts)
    ensures var w := Run(IDLE, sts);
            t in w.threads && u in w.threads && w.threads[t].Holds() && w.threads[u].Holds() ==> t == u
  {
    RunInv(IDLE, sts);
  }

  /** Nothing is refused until more frames have been offered than a queue holds. */
  lemma FirstOffersAreAccepted(sts: seq<Step>)
    requires Legal(IDLE, sts)
    ensures var w := Run(IDLE, sts);
            |w.offered| <= 1001 ==> w.accepted == w.offered
  {
    RunInv(IDLE, sts);
  }

  /** At every step of the run the queue is no longer than the limit. */
  predicate ShortThroughout(w: Writer, sts: seq<Step>)
    requires Legal(w, sts)
    decreases |sts|
  {
    sts != [] ==> |w.queue| <= MAX_SENDQUE_SIZE && ShortThroughout(Next(w, sts[0]), sts[1..])
  }

  /** While the queue is no longer than the limit, exactly what is offered is accepted, in that order. */
  lemma {:induction false} AcceptedWhileShort(w: Writer, sts: seq<Step>)
    requires Legal(w, sts) && ShortThroughout(w, sts)
    ensures var v := Run(w, sts);
            && w.offered <= v.offered && w.accepted <= v.accepted
            && v.offered[|w.offered|..] == v.accepted[|w.accepted|..]
    decreases |sts|
  {
    if sts != [] {
      var n := Next(w, sts[0]);
      AcceptedStep(w, sts[0]);
      AcceptedWhileShort(n, sts[1..]);
      hide Legal, Next, Enabled;
      var v := Run(n, sts[1..]);
      Tails(w.offered, n.offered, v.offered);
      Tails(w.accepted, n.accepted, v.accepted);
    }
  }

  lemma AcceptedStep(w: Writer, st: Step)
    requires Enabled(w, st) && |w.queue| <= MAX_SENDQUE_SIZE
    ensures var n := Next(w, st);
            && w.offered <= n.offered && w.accepted <= n.accepted
            && n.offered[|w.offered|..] == n.accepted[|w.accepted|..]
  {
  }

  lemma Tails(a: seq<Octets>, b: seq<Octets>, c: seq<Octets>)
    requires a <= b <= c
    ensures c[|a|..] == b[|a|..] + c[|b|..]
  {
  }

  predicate Popping(w: Writer) {
    exists t :: t in w.threads && (w.threads[t].WantPop? || w.threads[t].InPop?)
  }

  /** Without completions the queue grows with every send, up to exactly one more than the limit. */
  lemma {:induction false} QueueFills(w: Writer, sts: seq<Step>)
    requires |w.queue| <= MAX_SENDQUE_SIZE + 1 && !Popping(w)
    requires Legal(w, sts) && forall i :: 0 <= i < |sts| ==> !sts[i].Complete?
    ensures var v := Run(w, sts);
            && |w.offered| <= |v.offered|
            && |v.queue| == if |w.queue| + |v.offered| - |w.offered| < 1001
                            then |w.queue| + |v.offered| - |w.offered| else 1001
    decreases |sts|
  {
    if sts != [] {
      assert sts[0] in sts && !sts[0].Complete?;
      QueueStep(w, sts[0]);
      assert forall i :: 0 < i < |sts| ==> sts[i] == sts[1..][i - 1];
      hide Next, Enabled, Popping;
      QueueFills(Next(w, sts[0]), sts[1..]);
    }
  }

  lemma QueueStep(w: Writer, st: Step)
    requires |w.queue| <= MAX_SENDQUE_SIZE + 1 && !Popping(w) && Enabled(w, st) && !st.Complete?
    ensures var n := Next(w, st);
            && !Popping(n)
            && |n.offered| == |w.offered| + (if st.Leave? then 1 else 0)
            && |n.queue| == if st.Leave? && |w.queue| <= MAX_SENDQUE_SIZE then |w.queue| + 1 else |w.queue|
  {
  }

  // ---------------------------------------------------------------- the history, from the events alone

  /** The frame of the call of `send` that `t` is in after these steps, if it is in one. */
  function Sending(sts: seq<Step>, t: Tid): Option<Octets>
    decreases |sts|
  {
    if sts == [] then None
    else
      match sts[|sts| - 1]
      case Begin(u, f) => if u == t then Some(f) else Sending(sts[..|sts| - 1], t)
      case Complete(_, u) => if u == t then None else Sending(sts[..|sts| - 1], t)
      case _ => Sending(sts[..|sts| - 1], t)
  }

  /** The frames of the calls of `send` that have been through the mutex, in that order. */
  function Offers(sts: seq<Step>): seq<Octets>
    decreases |sts|
  {
    if sts == [] then []
    else
      var before, last := sts[..|sts| - 1], sts[|sts| - 1];
      Offers(before) + (if last.Leave? && Sending(before, last.t).Some? then [Sending(before, last.t).value] else [])
  }

  /** The bytes that the socket has reported. */
  function BytesSent(sts: seq<Step>): nat
    decreases |sts|
  {
    if sts == [] then 0
    else BytesSent(sts[..|sts| - 1]) + (if sts[|sts| - 1].Progress? then sts[|sts| - 1].n else 0)
  }

  lemma {:induction false} RunSnoc(w: Writer, sts: seq<Step>)
    requires Legal(w, sts) && sts != []
    ensures var before, last := sts[..|sts| - 1], sts[|sts| - 1];
            Legal(w, before) && Enabled(Run(w, before), last) && Run(w, sts) == Next(Run(w, before), last)
    decreases |sts|
  {
    hide Next, Enabled;
    if |sts| == 1 {
      assert sts[..0] == [] && sts[1..] == [] && Legal(w, []);
      assert Run(Next(w, sts[0]), []) == Next(w, sts[0]);
    } else {
      RunSnoc(Next(w, sts[0]), sts[1..]);
      assert sts[1..][..|sts| - 2] == sts[..|sts| - 1][1..];
    }
  }

  /** What each thread inside `send` or `write_callback_` is doing, told from the events. */
  ghost predicate ThreadsRecorded(sts: seq<Step>, w: Writer) {
    forall t :: t in w.threads && !w.threads[t].Gap? ==>
      Sending(sts, t) == match w.threads[t]
                         case WantSend(f) => Some(f)
                         case InSend(f) => Some(f)
                         case _ => None
  }

  lemma ThreadsStep(before: seq<Step>, w: Writer, sts: seq<Step>)
    requires ThreadsRecorded(before, w)
    requires sts != [] && before == sts[..|sts| - 1] && Enabled(w, sts[|sts| - 1])
    ensures ThreadsRecorded(sts, Next(w, sts[|sts| - 1]))
  {
    var last, n := sts[|sts| - 1], Next(w, sts[|sts| - 1]);
    forall t | t in n.threads && !n.threads[t].Gap?
      ensures Sending(sts, t) == match n.threads[t]
                                 case WantSend(f) => Some(f)
                                 case InSend(f) => Some(f)
                                 case _ => None
    {
      assert t in w.threads && !w.threads[t].Gap? ==> Sending(before, t) == Sending(before, t);
    }
  }

  lemma HistoryStep(before: seq<Step>, w: Writer, sts: seq<Step>)
    requires ThreadsRecorded(before, w) && w.offered == Offers(before) && |w.wire| == BytesSent(before)
    requires sts != [] && before == sts[..|sts| - 1] && Enabled(w, sts[|sts| - 1])
    ensures var n := Next(w, sts[|sts| - 1]); n.offered == Offers(sts) && |n.wire| == BytesSent(sts)
  {
    var last := sts[|sts| - 1];
    if last.Leave? {
      assert last.t in w.threads;
    }
  }

  /** What a run has offered and put on the wire, told from its events. */
  lemma {:induction false} EventsAreRecorded(sts: seq<Step>)
    requires Legal(IDLE, sts)
    ensures var w := Run(IDLE, sts);
            w.offered == Offers(sts) && |w.wire| == BytesSent(sts) && ThreadsRecorded(sts, w)
    decreases |sts|
  {
    if sts != [] {
      RunSnoc(IDLE, sts);
      var before := sts[..|sts| - 1];
      EventsAreRecorded(before);
      hide Legal, Run, Next, Enabled, Offers, BytesSent, ThreadsRecorded;
      ThreadsStep(before, Run(IDLE, before), sts);
      HistoryStep(before, Run(IDLE, before), sts);
    }
  }

  /** The wire carries the accepted frames in order, the last one possibly cut. */
  lemma WireIsPrefix(w: Writer)
    requires Inv(w)
    ensures w.wire <= Flatten(w.accepted)
    ensures w.queue == [] ==> w.wire == Flatten(w.accepted)
  {
    FlattenAppend(w.popped, w.queue);
    if w.queue != [] {
      assert Flatten(w.queue) == w.queue[0] + Flatten(w.queue[1..]);
    } else {
      assert w.popped + w.queue == w.popped && Flatten(w.popped) + [] == Flatten(w.popped);
    }
  }

  lemma FailedStep(w: Writer, st: Step)
    requires Inv(w) && w.failed && Enabled(w, st)
    ensures var v := Next(w, st);
            v.failed && v.wire == w.wire && v.popped == w.popped && w.queue <= v.queue
  {
    hide Flatten, Subsequence, WireInv, LockInv;
    assert w.token.Nowhere? && w.flights == [];
    if st.Leave? {
      assert !w.threads[st.t].Token();
    }
  }

  /** After a write error no write is issued again, under any interleaving of further calls. */
  lemma {:induction false} SilenceAfterWriteError(w: Writer, sts: seq<Step>)
    requires Inv(w) && w.failed && Legal(w, sts)
    ensures var v := Run(w, sts);
            && v.failed && v.flights == [] && TokenThreads(v) == {}
            && v.wire == w.wire && v.popped == w.popped && w.queue <= v.queue
    decreases |sts|
  {
    if sts != [] {
      StepInv(w, sts[0]);
      FailedStep(w, sts[0]);
      hide Inv, Next, Enabled, TokenThreads;
      SilenceAfterWriteError(Next(w, sts[0]), sts[1..]);
    } else {
      TokenCount(w);
      assert w.token.Nowhere?;
    }
  }
}
