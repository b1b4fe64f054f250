/**
 * What the peers of the S12 server see: a client that reads its connection with the server's own
 * framing gets the handlers' replies to its own requests, told from the bytes it sent.
 */
module CoroutineReplies {
  import opened Bytes
  import opened CoroutineServer
  import F = CoroutineFrames
  import W = WriteToken
  import L = LogicQueue

  /** What the handlers answer to the messages with a registered id, in order. */
  function Replies(cfg: Config, ms: seq<F.Message>): (rs: seq<F.Message>)
    ensures forall k :: 0 <= k < |rs| ==> F.Sendable(rs[k])
  {
    if ms == [] then []
    else
      var m := ms[|ms| - 1];
      Replies(cfg, ms[..|ms| - 1]) + (if m.id in cfg.ids then [cfg.answer(m.id, m.data)] else [])
  }

  function Encodings(rs: seq<F.Message>): (fs: seq<Octets>)
    ensures |fs| == |rs| && forall k :: 0 <= k < |rs| ==> fs[k] == F.Encode(rs[k])
  {
    seq(|rs|, k requires 0 <= k < |rs| => F.Encode(rs[k]))
  }

  lemma {:induction false} FlattenEncodings(rs: seq<F.Message>)
    ensures Flatten(Encodings(rs)) == F.EncodeAll(rs)
    decreases |rs|
  {
    if rs != [] {
      FlattenEncodings(rs[1..]);
      assert Encodings(rs)[1..] == Encodings(rs[1..]);
    }
  }

  /** The frames that the server puts together are the encodings of the handlers' replies. */
  lemma {:induction false} AnswersEncodeReplies(cfg: Config, ms: seq<F.Message>)
    ensures AnswersTo(cfg, ms) == Encodings(Replies(cfg, ms))
    decreases |ms|
  {
    if ms != [] {
      var before, m := ms[..|ms| - 1], ms[|ms| - 1];
      AnswersEncodeReplies(cfg, before);
      hide F.Encode;
      if m.id in cfg.ids {
        var rs := Replies(cfg, before);
        assert Encodings(rs + [cfg.answer(m.id, m.data)]) == Encodings(rs) + [AnswerFrame(cfg, m)];
      }
    }
  }

  /** Frames chosen from encodings are encodings of messages chosen. */
  lemma {:induction false} ChosenReplies(fs: seq<Octets>, rs: seq<F.Message>) returns (chosen: seq<F.Message>)
    requires Subsequence(fs, Encodings(rs))
    ensures Subsequence(chosen, rs) && fs == Encodings(chosen)
    decreases |rs|
  {
    if fs == [] {
      chosen := [];
    } else {
      var fs', rs', r := fs[..|fs| - 1], rs[..|rs| - 1], rs[|rs| - 1];
      assert Encodings(rs)[..|rs| - 1] == Encodings(rs');
      assert rs == rs' + [r];
      if fs[|fs| - 1] == F.Encode(r) && Subsequence(fs', Encodings(rs')) {
        chosen := ChosenReplies(fs', rs');
        SubsequenceKeep(chosen, rs', r);
        chosen := chosen + [r];
        assert fs == fs' + [F.Encode(r)];
      } else {
        chosen := ChosenReplies(fs, rs');
        SubsequenceSkip(chosen, rs', r);
      }
    }
  }

  lemma {:induction false} SubsequenceIsSendable(a: seq<F.Message>, b: seq<F.Message>)
    requires Subsequence(a, b) && forall k :: 0 <= k < |b| ==> F.Sendable(b[k])
    ensures forall k :: 0 <= k < |a| ==> F.Sendable(a[k])
    decreases |b|
  {
    if a != [] {
      var a', b' := a[..|a| - 1], b[..|b| - 1];
      if a[|a| - 1] == b[|b| - 1] && Subsequence(a', b') {
        SubsequenceIsSendable(a', b');
        assert forall k :: 0 <= k < |a'| ==> a[k] == a'[k];
      } else {
        SubsequenceIsSendable(a, b');
      }
    }
  }

  /** A client that reads a prefix of chosen replies' frames gets chosen replies, in order. */
  lemma ReadsChosenReplies(accepted: seq<Octets>, wire: Octets, rs: seq<F.Message>)
    requires Subsequence(accepted, Encodings(rs)) && wire <= Flatten(accepted)
    requires forall k :: 0 <= k < |rs| ==> F.Sendable(rs[k])
    ensures Subsequence(F.Parse(F.Head, wire).msgs, rs)
  {
    hide *;
    var chosen := ChosenReplies(accepted, rs);
    SubsequenceIsSendable(chosen, rs);
    ReadsSome(wire, chosen);
    SubsequencePrefix(F.Parse(F.Head, wire).msgs, chosen, rs);
  }

  lemma ReadsSome(wire: Octets, rs: seq<F.Message>)
    requires wire <= Flatten(Encodings(rs)) && forall k :: 0 <= k < |rs| ==> F.Sendable(rs[k])
    ensures F.Parse(F.Head, wire).msgs <= rs
  {
    hide *;
    FlattenEncodings(rs);
    F.ParsePrefix(wire, F.EncodeAll(rs));
    F.ReadsTheFirst(rs);
  }

  // ---------------------------------------------------------------- the bytes received

  /** The bytes that a run's completed reads brought to session `i`. */
  function BytesIn(i: nat, sts: seq<Step>): Octets
    decreases |sts|
  {
    if sts == [] then []
    else
      (match sts[0]
       case CoHead(j, h) => if j == i then h else []
       case CoBody(j, b) => if j == i then b else []
       case _ => []) + BytesIn(i, sts[1..])
  }

  function ReceivedBy(s: Server, i: nat): Octets {
    if i < |s.sessions| then s.sessions[i].received else []
  }

  lemma ReceivedStep(cfg: Config, s: Server, st: Step, i: nat)
    requires Enabled(cfg, s, st)
    ensures ReceivedBy(Next(cfg, s, st), i) == ReceivedBy(s, i) + BytesIn(i, [st])
    ensures |Next(cfg, s, st).sessions| >= |s.sessions|
  {
    hide L.Next, L.Enabled, W.Next, W.Enabled, F.AfterHead, AnswerFrame;
    assert [st][1..] == [] && BytesIn(i, []) == [];
  }

  lemma {:induction false} ReceivedRun(cfg: Config, s: Server, sts: seq<Step>, i: nat)
    requires Legal(cfg, s, sts)
    ensures ReceivedBy(Run(cfg, s, sts), i) == ReceivedBy(s, i) + BytesIn(i, sts)
    decreases |sts|
  {
    hide Next, Enabled, ReceivedBy;
    if sts != [] {
      ReceivedStep(cfg, s, sts[0], i);
      ReceivedRun(cfg, Next(cfg, s, sts[0]), sts[1..], i);
      assert [sts[0]][1..] == [] && BytesIn(i, [sts[0]]) + BytesIn(i, sts[1..]) == BytesIn(i, sts);
    }
  }

  /** A session has received exactly the bytes that its reads brought. */
  lemma ReceivedIsWhatArrived(cfg: Config, sts: seq<Step>, i: nat)
    requires Legal(cfg, Boot(cfg), sts) && i < |Run(cfg, Boot(cfg), sts).sessions|
    ensures Run(cfg, Boot(cfg), sts).sessions[i].received == BytesIn(i, sts)
  {
    ReceivedRun(cfg, Boot(cfg), sts, i);
    assert [] + BytesIn(i, sts) == BytesIn(i, sts);
  }

  // ---------------------------------------------------------------- end to end

  /** What session `i` of a run has been asked, and what the handlers say to that. */
  function RequestsTo(i: nat, sts: seq<Step>): seq<F.Message> {
    F.Parse(F.Head, BytesIn(i, sts)).msgs
  }

  function RepliesTo(cfg: Config, i: nat, sts: seq<Step>): seq<F.Message> {
    Replies(cfg, RequestsTo(i, sts))
  }

  /** What may be claimed of a sending side that was offered the first of the encoded replies. */
  ghost predicate Serves(w: W.Writer, rs: seq<F.Message>) {
    && Subsequence(w.accepted, Encodings(rs))
    && w.wire <= Flatten(w.accepted)
    && Subsequence(F.Parse(F.Head, w.wire).msgs, rs)
    && (|rs| <= W.MAX_SENDQUE_SIZE + 1 ==> |w.accepted| == |w.offered|)
    && (|w.accepted| == |w.offered| ==> w.wire <= F.EncodeAll(rs) && F.Parse(F.Head, w.wire).msgs <= rs)
  }

  lemma OfferedServes(w: W.Writer, rs: seq<F.Message>)
    requires W.Inv(w) && w.offered <= Encodings(rs) && forall k :: 0 <= k < |rs| ==> F.Sendable(rs[k])
    ensures Serves(w, rs)
  {
    WireFollows(w, Encodings(rs));
    FlattenEncodings(rs);
    ReadsChosenReplies(w.accepted, w.wire, rs);
    assert W.WireInv(w);
    hide W.Inv, W.WireInv, Flatten, Subsequence, F.Parse, F.Encode;
    if |w.accepted| == |w.offered| {
      F.ParsePrefix(w.wire, F.EncodeAll(rs));
      F.ReadsTheFirst(rs);
    }
  }

  /**
   * End to end, for any number of sessions and every interleaving of their coroutines, the logic
   * thread, the acceptor and the write completions, in terms of the bytes that arrived on a session
   * and the handlers' answers. What the session accepted for sending is a subsequence of the encoded
   * replies to its own requests, in request order, one per request with a registered id, and the wire a
   * prefix of that; so a client reading the wire gets replies to its own requests, in order. Nothing is
   * refused until there are more replies than a queue holds, and while nothing is, it gets the first
   * replies without a gap.
   */
  lemma EndToEnd(cfg: Config, sts: seq<Step>, i: nat)
    requires Legal(cfg, Boot(cfg), sts) && i < |Run(cfg, Boot(cfg), sts).sessions|
    ensures Serves(Run(cfg, Boot(cfg), sts).sessions[i].writer, RepliesTo(cfg, i, sts))
  {
    BootInv(cfg);
    RunInv(cfg, Boot(cfg), sts);
    ReceivedIsWhatArrived(cfg, sts, i);
    var s := Run(cfg, Boot(cfg), sts);
    hide Run, Legal;
    InvServes(cfg, s, i);
  }

  lemma InvServes(cfg: Config, s: Server, i: nat)
    requires Inv(cfg, s) && i < |s.sessions|
    ensures Serves(s.sessions[i].writer, Replies(cfg, F.Parse(F.Head, s.sessions[i].received).msgs))
  {
    var x := s.sessions[i];
    OfferedIsPrefix(cfg, s, i);
    AskedIsPrefix(cfg, s, i);
    assert SessionInv(cfg, s.logic, s.sending, i, x);
    hide Inv, SessionInv, W.Inv, F.Parse, AnswersTo, Replies, Serves;
    var ms := F.Parse(F.Head, x.received).msgs;
    AnswersPrefix(cfg, x.asked, ms);
    AnswersEncodeReplies(cfg, ms);
    OfferedServes(x.writer, Replies(cfg, ms));
  }

  /**
   * When nothing is left to do, nothing is missing: with the logic queue and the session's send queue
   * empty, no message in hand and no refusal, the wire is exactly the encoded replies to everything
   * received, and a client reading it gets exactly those replies if and only if each of them is within
   * its reader's limits.
   */
  lemma Quiescence(cfg: Config, sts: seq<Step>, i: nat)
    requires Legal(cfg, Boot(cfg), sts) && i < |Run(cfg, Boot(cfg), sts).sessions|
    requires var s := Run(cfg, Boot(cfg), sts);
             && s.logic.queue == [] && s.sessions[i].writer.queue == []
             && !s.sessions[i].co.PostWant? && !s.sessions[i].co.Posting?
    ensures Answers(Run(cfg, Boot(cfg), sts).sessions[i].writer, RepliesTo(cfg, i, sts))
  {
    BootInv(cfg);
    RunInv(cfg, Boot(cfg), sts);
    ReceivedIsWhatArrived(cfg, sts, i);
    var s := Run(cfg, Boot(cfg), sts);
    hide Run, Legal;
    InvAnswers(cfg, s, i);
  }

  /** What may be claimed of a sending side with nothing left to do. */
  ghost predicate Answers(w: W.Writer, rs: seq<F.Message>) {
    && (|rs| <= W.MAX_SENDQUE_SIZE + 1 ==> |w.accepted| == |w.offered|)
    && (|w.accepted| == |w.offered| ==>
          && w.wire == F.EncodeAll(rs)
          && (F.Parse(F.Head, w.wire).msgs == rs <==> forall k :: 0 <= k < |rs| ==> F.Readable(rs[k])))
  }

  lemma InvAnswers(cfg: Config, s: Server, i: nat)
    requires Inv(cfg, s) && i < |s.sessions|
    requires s.logic.queue == [] && s.sessions[i].writer.queue == []
    requires !s.sessions[i].co.PostWant? && !s.sessions[i].co.Posting?
    ensures Answers(s.sessions[i].writer, Replies(cfg, F.Parse(F.Head, s.sessions[i].received).msgs))
  {
    WireIsComplete(cfg, s, i);
    InvServes(cfg, s, i);
    hide Inv, F.Parse, AnswersTo, Replies;
    var ms := F.Parse(F.Head, s.sessions[i].received).msgs;
    AnswersEncodeReplies(cfg, ms);
    FlattenEncodings(Replies(cfg, ms));
    F.RoundTrip(Replies(cfg, ms));
  }
}
