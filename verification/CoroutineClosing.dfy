/**
 * The end of a session of the S12 server: why it is closed, what it still does then, and what becomes
 * of its entry in the server's map.
 */
module CoroutineClosing {
  import opened Bytes
  import opened CoroutineServer
  import opened CoroutineReplies
  import F = CoroutineFrames
  import W = WriteToken
  import L = LogicQueue

  // ---------------------------------------------------------------- why a session is closed

  predicate WriteFailed(i: nat, sts: seq<Step>) {
    exists st :: st in sts && st.WriteFails? && st.i == i
  }

  predicate ReadFailed(i: nat, sts: seq<Step>) {
    CoFails(i) in sts
  }

  /** A coroutine that ended the session stays at its end; one that left its loop found it closed. */
  predicate ClosingInv(x: Session) {
    && (x.closed <==> x.writer.failed || x.co.Ending?)
    && (x.co.Done? ==> x.writer.failed)
  }

  /** What the run so far says of session `i`, of which there may not be one yet. */
  ghost predicate Recorded(s: Server, i: nat, sts: seq<Step>) {
    if i < |s.sessions| then
      var x := s.sessions[i];
      && ClosingInv(x)
      && (x.writer.failed <==> WriteFailed(i, sts))
      && (ReadFailed(i, sts) ==> x.co.Ending?)
      && (x.co.Ending? ==> ReadFailed(i, sts) || F.Parse(F.Head, x.received).wait.Closed?)
    else !WriteFailed(i, sts) && !ReadFailed(i, sts)
  }

  /** How one step of any thread bears on the end of session `i`. */
  lemma ClosingStep(cfg: Config, s: Server, st: Step, i: nat)
    requires Enabled(cfg, s, st) && i < |s.sessions| && ClosingInv(s.sessions[i])
    ensures i < |Next(cfg, s, st).sessions|
    ensures var x, y := s.sessions[i], Next(cfg, s, st).sessions[i];
            && ClosingInv(y)
            && (y.writer.failed <==> x.writer.failed || (st.WriteFails? && st.i == i))
            && (y.co.Ending? <==>
                  x.co.Ending? || st == CoFails(i) || (st.CoHead? && st.i == i && F.AfterHead(st.h).Closed?))
            && (x.co.Ending? ==> y.received == x.received)
            && (st == CoFails(i) ==> y.received == x.received)
            && (st.CoHead? && st.i == i ==> x.co.ReadHead? && y.received == x.received + st.h)
  {
    hide L.Next, L.Enabled, F.AfterHead, AnswerFrame, W.Next, W.Enabled;
    OnlyFailuresFail(s.sessions[i].writer);
  }

  lemma OnlyFailuresFail(w: W.Writer)
    ensures forall ws :: W.Enabled(w, ws) ==> (W.Next(w, ws).failed <==> w.failed || ws.Fail?)
    ensures forall f :: W.Enabled(w, W.Begin(WORKER, f)) <==> W.Enabled(w, W.Begin(WORKER, []))
  {
  }

  lemma RecordedStep(cfg: Config, s: Server, before: seq<Step>, st: Step, i: nat)
    requires Inv(cfg, s) && Enabled(cfg, s, st) && Recorded(s, i, before)
    ensures Recorded(Next(cfg, s, st), i, before + [st])
  {
    FailuresSnoc(before, st, i);
    if i < |s.sessions| {
      var x := s.sessions[i];
      assert SessionInv(cfg, s.logic, s.sending, i, x) && ReadInv(x);
      ClosingStep(cfg, s, st, i);
      hide Inv, SessionInv, Next, WriteFailed, ReadFailed;
      if st.CoHead? && st.i == i {
        HeadRead(x, st.h);
      }
      hide Enabled, ReadInv, F.Parse, F.AfterHead;
    } else {
      hide Inv, L.Next, L.Enabled, W.Next, W.Enabled, F.AfterHead, F.Parse, WriteFailed, ReadFailed;
    }
  }

  lemma FailuresSnoc(before: seq<Step>, st: Step, i: nat)
    ensures WriteFailed(i, before + [st]) <==> WriteFailed(i, before) || (st.WriteFails? && st.i == i)
    ensures ReadFailed(i, before + [st]) <==> ReadFailed(i, before) || st == CoFails(i)
  {
    assert forall u :: u in before + [st] <==> u in before || u == st;
  }

  lemma {:induction false} RecordedRun(cfg: Config, sts: seq<Step>, i: nat)
    requires Legal(cfg, Boot(cfg), sts)
    ensures Recorded(Run(cfg, Boot(cfg), sts), i, sts)
    decreases |sts|
  {
    hide *;
    if sts == [] {
      NothingRecordedYet(cfg, i);
    } else {
      RunSnoc(cfg, Boot(cfg), sts);
      var before, last := sts[..|sts| - 1], sts[|sts| - 1];
      RecordedRun(cfg, before, i);
      BootInv(cfg);
      RunInv(cfg, Boot(cfg), before);
      RecordedStep(cfg, Run(cfg, Boot(cfg), before), before, last, i);
      assert before + [last] == sts;
    }
  }

  lemma NothingRecordedYet(cfg: Config, i: nat)
    ensures Recorded(Run(cfg, Boot(cfg), []), i, []) && MapRecorded(Run(cfg, Boot(cfg), []), i, [])
  {
  }

  /**
   * Over every run: a session is closed exactly when one of its writes failed, one of its reads failed,
   * or what arrived on it announces an id or a length out of bounds. Otherwise its coroutine reads on:
   * it is in its loop, and where it stands in a header or a body is what the bytes say.
   */
  lemma ClosedExactlyWhen(cfg: Config, sts: seq<Step>, i: nat)
    requires Legal(cfg, Boot(cfg), sts) && i < |Run(cfg, Boot(cfg), sts).sessions|
    ensures var x := Run(cfg, Boot(cfg), sts).sessions[i];
            var p := F.Parse(F.Head, BytesIn(i, sts));
            && (x.closed <==> WriteFailed(i, sts) || ReadFailed(i, sts) || p.wait.Closed?)
            && (!x.closed ==> !x.co.Ending? && !x.co.Done?)
            && (x.co.ReadHead? ==> p.wait == F.Head)
            && (x.co.ReadBody? ==> p.wait == F.Body(x.co.id, x.co.need))
  {
    RecordedRun(cfg, sts, i);
    ReceivedIsWhatArrived(cfg, sts, i);
    BootInv(cfg);
    RunInv(cfg, Boot(cfg), sts);
    var s := Run(cfg, Boot(cfg), sts);
    assert SessionInv(cfg, s.logic, s.sending, i, s.sessions[i]);
    hide Run, Legal, Inv, F.Parse;
  }

  // ---------------------------------------------------------------- what a closed session still does

  predicate ReadsAt(i: nat, st: Step) {
    (st.CoHead? || st.CoBody?) && st.i == i
  }

  /** The most messages that a closed session will still post. */
  function Budget(co: Co): nat {
    if co.ReadHead? || co.ReadBody? || co.PostWant? || (co.Posting? && !co.pushed) then 1 else 0
  }

  lemma ClosedStep(cfg: Config, s: Server, st: Step, i: nat)
    requires Enabled(cfg, s, st) && i < |s.sessions| && s.sessions[i].closed
    requires PosterInv(s.logic.poster, i, s.sessions[i])
    ensures i < |Next(cfg, s, st).sessions|
    ensures var x, y := s.sessions[i], Next(cfg, s, st).sessions[i];
            && y.closed
            && x.asked <= y.asked
            && |y.asked| + Budget(y.co) <= |x.asked| + Budget(x.co)
            && (st == CoCheck(i) || x.co.Done? ==> y.co.Done?)
            && (ReadsAt(i, st) ==> !x.co.Done?)
  {
    hide L.Next, L.Enabled, W.Next, W.Enabled, F.AfterHead, AnswerFrame;
    if st.PostStep? {
      PosterEffect(s.logic);
    }
  }

  /** After the next look at `b_close_` a closed session reads nothing, and it posts at most one message. */
  lemma {:induction false} ClosedSessionStops(cfg: Config, s: Server, sts: seq<Step>, i: nat)
    requires Inv(cfg, s) && Legal(cfg, s, sts) && i < |s.sessions| && s.sessions[i].closed
    ensures i < |Run(cfg, s, sts).sessions|
    ensures var x, y := s.sessions[i], Run(cfg, s, sts).sessions[i];
            && y.closed
            && x.asked <= y.asked && |y.asked| + Budget(y.co) <= |x.asked| + Budget(x.co)
            && (x.co.Done? ==> forall k :: 0 <= k < |sts| ==> !ReadsAt(i, sts[k]))
    ensures forall j, k :: 0 <= j < k < |sts| && sts[j] == CoCheck(i) ==> !ReadsAt(i, sts[k])
    decreases |sts|
  {
    hide Budget, Enabled, Next, ReadsAt;
    if sts != [] {
      var n := Next(cfg, s, sts[0]);
      LockOwners(cfg, s);
      ClosedStep(cfg, s, sts[0], i);
      StepInv(cfg, s, sts[0]);
      hide Inv, Legal, Run;
      assert Legal(cfg, n, sts[1..]) && Run(cfg, s, sts) == Run(cfg, n, sts[1..]) by {
        UnfoldRun(cfg, s, sts);
      }
      ClosedSessionStops(cfg, n, sts[1..], i);
      assert forall k :: 0 < k < |sts| ==> sts[k] == sts[1..][k - 1];
    } else {
      UnfoldRun(cfg, s, sts);
    }
  }

  lemma UnfoldRun(cfg: Config, s: Server, sts: seq<Step>)
    requires Legal(cfg, s, sts)
    ensures sts == [] ==> Run(cfg, s, sts) == s
    ensures sts != [] ==> Enabled(cfg, s, sts[0]) && Legal(cfg, Next(cfg, s, sts[0]), sts[1..])
    ensures sts != [] ==> Run(cfg, s, sts) == Run(cfg, Next(cfg, s, sts[0]), sts[1..])
  {
  }

  /** So a failed write stops the reading of its session. */
  lemma WriteFailureStopsReading(cfg: Config, s: Server, i: nat, k: nat, m: nat, sts: seq<Step>)
    requires Inv(cfg, s) && Enabled(cfg, s, WriteFails(i, k, m))
    requires Legal(cfg, Next(cfg, s, WriteFails(i, k, m)), sts)
    ensures i < |s.sessions| && i < |Run(cfg, Next(cfg, s, WriteFails(i, k, m)), sts).sessions|
    ensures |Run(cfg, Next(cfg, s, WriteFails(i, k, m)), sts).sessions[i].asked| <= |s.sessions[i].asked| + 1
    ensures forall j, k :: 0 <= j < k < |sts| && sts[j] == CoCheck(i) ==> !ReadsAt(i, sts[k])
  {
    var n := Next(cfg, s, WriteFails(i, k, m));
    assert n.sessions[i].closed && n.sessions[i].asked == s.sessions[i].asked;
    StepInv(cfg, s, WriteFails(i, k, m));
    hide Inv, Next, Enabled, Legal, Run;
    ClosedSessionStops(cfg, n, sts, i);
  }

  // ---------------------------------------------------------------- the server's map

  /** The threads that got the server's mutex in a run, in order. */
  function Locked(sts: seq<Step>): seq<Thread>
    decreases |sts|
  {
    if sts == [] then []
    else Locked(sts[..|sts| - 1]) + (if sts[|sts| - 1].ServerLock? then [sts[|sts| - 1].t] else [])
  }

  predicate About(i: nat, t: Thread) {
    match t
    case WorkerT => false
    case CoT(j) => j == i
    case CallbackT(j, _) => j == i
    case AcceptorT(j) => j == i
  }

  /** The last of these threads that has to do with session `i` is its acceptor. */
  predicate LastIsAcceptor(i: nat, ts: seq<Thread>)
    decreases |ts|
  {
    ts != [] && if About(i, ts[|ts| - 1]) then ts[|ts| - 1].AcceptorT? else LastIsAcceptor(i, ts[..|ts| - 1])
  }

  /** The threads that have been through the mutex: the one inside is not counted yet. */
  function Through(s: Server, sts: seq<Step>): seq<Thread> {
    var ts := Locked(sts);
    if s.holder.Some? && ts != [] then ts[..|ts| - 1] else ts
  }

  ghost predicate MapRecorded(s: Server, i: nat, sts: seq<Step>) {
    && (s.holder.Some? ==> Locked(sts) != [] && Locked(sts)[|Locked(sts)| - 1] == s.holder.value)
    && (i in s.onMap <==> LastIsAcceptor(i, Through(s, sts)))
  }

  lemma MapStep(cfg: Config, s: Server, before: seq<Step>, st: Step, i: nat)
    requires Enabled(cfg, s, st) && MapRecorded(s, i, before)
    ensures MapRecorded(Next(cfg, s, st), i, before + [st])
  {
    LockedSnoc(before, st);
    hide L.Next, L.Enabled, W.Next, W.Enabled, F.AfterHead, AnswerFrame, Locked;
    if st.ServerLock? {
      assert (Locked(before) + [st.t])[..|Locked(before)|] == Locked(before);
    }
  }

  lemma LockedSnoc(before: seq<Step>, st: Step)
    ensures Locked(before + [st]) == if st.ServerLock? then Locked(before) + [st.t] else Locked(before)
  {
    assert (before + [st])[..|before|] == before;
  }

  lemma {:induction false} MapRun(cfg: Config, sts: seq<Step>, i: nat)
    requires Legal(cfg, Boot(cfg), sts)
    ensures MapRecorded(Run(cfg, Boot(cfg), sts), i, sts)
    decreases |sts|
  {
    hide *;
    if sts == [] {
      NothingRecordedYet(cfg, i);
    } else {
      RunSnoc(cfg, Boot(cfg), sts);
      var before, last := sts[..|sts| - 1], sts[|sts| - 1];
      MapRun(cfg, before, i);
      MapStep(cfg, Run(cfg, Boot(cfg), before), before, last, i);
      assert before + [last] == sts;
    }
  }

  /**
   * Over every run: a session is on the map exactly when the last to get through the mutex on its
   * account was its acceptor. A removal that comes before the insertion is therefore without effect.
   */
  lemma OnMapExactlyWhen(cfg: Config, sts: seq<Step>, i: nat)
    requires Legal(cfg, Boot(cfg), sts)
    ensures var s := Run(cfg, Boot(cfg), sts);
            i in s.onMap <==> LastIsAcceptor(i, Through(s, sts))
  {
    MapRun(cfg, sts, i);
  }

  predicate FailedOn(i: nat, n: nat, sts: seq<Step>) {
    exists st :: st in sts && st.WriteFails? && st.i == i && st.n == n
  }

  /** Who has reason to change the map: each acceptor, a coroutine that ended, a write that failed. */
  predicate HasReason(s: Server, sts: seq<Step>, t: Thread) {
    match t
    case WorkerT => false
    case AcceptorT(i) => i < |s.sessions|
    case CoT(i) => i < |s.sessions| && s.sessions[i].co.Ending?
    case CallbackT(i, n) => FailedOn(i, n, sts)
  }

  ghost predicate ReasonsRecorded(s: Server, sts: seq<Step>, t: Thread) {
    t in s.waiting || t in Locked(sts) <==> HasReason(s, sts, t)
  }

  lemma ReasonStep(cfg: Config, s: Server, before: seq<Step>, st: Step, t: Thread)
    requires Enabled(cfg, s, st) && ReasonsRecorded(s, before, t)
    ensures ReasonsRecorded(Next(cfg, s, st), before + [st], t)
  {
    LockedSnoc(before, st);
    if t.CallbackT? {
      FailedOnSnoc(before, st, t.i, t.n);
    }
    hide L.Next, L.Enabled, W.Next, W.Enabled, F.AfterHead, AnswerFrame, Locked, FailedOn;
  }

  lemma FailedOnSnoc(before: seq<Step>, st: Step, i: nat, n: nat)
    ensures FailedOn(i, n, before + [st]) <==>
              FailedOn(i, n, before) || (st.WriteFails? && st.i == i && st.n == n)
  {
    assert forall u :: u in before + [st] <==> u in before || u == st;
  }

  lemma {:induction false} ReasonRun(cfg: Config, sts: seq<Step>, t: Thread)
    requires Legal(cfg, Boot(cfg), sts)
    ensures ReasonsRecorded(Run(cfg, Boot(cfg), sts), sts, t)
    decreases |sts|
  {
    hide *;
    if sts == [] {
      NoReasonYet(cfg, t);
    } else {
      RunSnoc(cfg, Boot(cfg), sts);
      var before, last := sts[..|sts| - 1], sts[|sts| - 1];
      ReasonRun(cfg, before, t);
      ReasonStep(cfg, Run(cfg, Boot(cfg), before), before, last, t);
      assert before + [last] == sts;
    }
  }

  lemma NoReasonYet(cfg: Config, t: Thread)
    ensures ReasonsRecorded(Run(cfg, Boot(cfg), []), [], t)
  {
  }

  /**
   * Over every run: a thread waits for the server's mutex, or has got it, exactly if it has reason to
   * change the map. So when nobody waits any more, every acceptor, every coroutine that ended and every
   * failed write has had its turn.
   */
  lemma EveryoneGetsToTheMap(cfg: Config, sts: seq<Step>, t: Thread)
    requires Legal(cfg, Boot(cfg), sts)
    ensures var s := Run(cfg, Boot(cfg), sts);
            && (t in s.waiting || t in Locked(sts) <==> HasReason(s, sts, t))
            && (s.waiting == {} ==> (t in Locked(sts) <==> HasReason(s, sts, t)))
  {
    ReasonRun(cfg, sts, t);
  }

  /** That does happen: a session that has ended and removed itself is then put on the map for good. */
  lemma RemovalCanBeLost(cfg: Config)
    ensures var sts := [Accept, CoCheck(0), CoFails(0), ServerLock(CoT(0)), ServerUnlock,
                        ServerLock(AcceptorT(0)), ServerUnlock];
            && Legal(cfg, Boot(cfg), sts)
            && var s := Run(cfg, Boot(cfg), sts);
               |s.sessions| == 1 && s.sessions[0].co.Ending? && s.waiting == {} && s.holder.None? && s.onMap == {0}
  {
    var b := Boot(cfg);
    var s := b.(sessions := [STARTED], waiting := {AcceptorT(0)});
    var r := s.(sessions := [STARTED.(co := ReadHead)]);
    var e := r.(sessions := [STARTED.(co := Ending, closed := true)], waiting := {AcceptorT(0), CoT(0)});
    var f, g := e.(waiting := {AcceptorT(0)}), e.(waiting := {});
    assert Legal(cfg, b, []) && Run(cfg, b, []) == b;
    EndsAtOnce(cfg, b);
    RemovedThenInserted(cfg, e);
    hide Legal, Run, Next, Enabled, Boot;
    var sts := Extend(cfg, [], b, Accept, s);
    sts := Extend(cfg, sts, s, CoCheck(0), r);
    sts := Extend(cfg, sts, r, CoFails(0), e);
    sts := Extend(cfg, sts, e, ServerLock(CoT(0)), f.(holder := W.Some(CoT(0))));
    sts := Extend(cfg, sts, f.(holder := W.Some(CoT(0))), ServerUnlock, f);
    sts := Extend(cfg, sts, f, ServerLock(AcceptorT(0)), g.(holder := W.Some(AcceptorT(0))));
    sts := Extend(cfg, sts, g.(holder := W.Some(AcceptorT(0))), ServerUnlock, g.(onMap := {0}));
    assert sts == [Accept, CoCheck(0), CoFails(0), ServerLock(CoT(0)), ServerUnlock,
                   ServerLock(AcceptorT(0)), ServerUnlock];
  }

  /** A session whose first read fails. */
  lemma EndsAtOnce(cfg: Config, b: Server)
    requires b.sessions == [] && b.waiting == {}
    ensures var s := b.(sessions := [STARTED], waiting := {AcceptorT(0)});
            var r := s.(sessions := [STARTED.(co := ReadHead)]);
            && Enabled(cfg, b, Accept) && Next(cfg, b, Accept) == s
            && Enabled(cfg, s, CoCheck(0)) && Next(cfg, s, CoCheck(0)) == r
            && Enabled(cfg, r, CoFails(0))
            && Next(cfg, r, CoFails(0))
            == r.(sessions := [STARTED.(co := Ending, closed := true)], waiting := {AcceptorT(0), CoT(0)})
  {
  }

  /** Its coroutine gets the server's mutex before its acceptor does. */
  lemma RemovedThenInserted(cfg: Config, e: Server)
    requires e.waiting == {AcceptorT(0), CoT(0)} && e.holder.None? && e.onMap == {}
    ensures var f, g := e.(waiting := {AcceptorT(0)}), e.(waiting := {});
            var f', g' := f.(holder := W.Some(CoT(0))), g.(holder := W.Some(AcceptorT(0)));
            && Enabled(cfg, e, ServerLock(CoT(0))) && Next(cfg, e, ServerLock(CoT(0))) == f'
            && Enabled(cfg, f', ServerUnlock) && Next(cfg, f', ServerUnlock) == f
            && Enabled(cfg, f, ServerLock(AcceptorT(0))) && Next(cfg, f, ServerLock(AcceptorT(0))) == g'
            && Enabled(cfg, g', ServerUnlock) && Next(cfg, g', ServerUnlock) == g.(onMap := {0})
  {
  }

  lemma Extend(cfg: Config, sts: seq<Step>, s: Server, st: Step, n: Server) returns (longer: seq<Step>)
    requires Legal(cfg, Boot(cfg), sts) && Run(cfg, Boot(cfg), sts) == s
    requires Enabled(cfg, s, st) && Next(cfg, s, st) == n
    ensures longer == sts + [st] && Legal(cfg, Boot(cfg), longer) && Run(cfg, Boot(cfg), longer) == n
  {
    hide *;
    RunAppend(cfg, Boot(cfg), sts, st);
    longer := sts + [st];
  }
}
