/**
 * The S04 session as a value, one transition per completion handler, and what holds over every
 * run: the session is started and on the map, and completions then arrive in any order.
 */
module EchoSpec {
  import opened Bytes
  import opened FrameSpec
  import opened SendQueue

  /** `pending` counts the reads not yet completed; `received` is every byte that has arrived. */
  datatype Session = Session(
    reader: Reader,
    box: Outbox,
    pending: nat,
    registered: bool,
    closed: bool,
    received: Octets,
    readFailed: bool)
  {
    /** Something still refers to the session: the map, or a handler that has not run. */
    predicate Held() {
      registered || pending > 0 || box.writes != []
    }

    /** The messages of `p` go to `send` in order, then the reader stands at `p.rest`. */
    function Deliver(p: Parsed): Session {
      this.(box := box.SendAll(Frames(Big, p.msgs)), reader := p.rest)
    }

    function GotBytes(chunk: Octets): Session
      requires pending > 0 && reader.Ok()
    {
      var s := Deliver(Feed(Big, reader, chunk));
      s.(pending := if chunk != [] && s.reader.Live() then pending else pending - 1,
         registered := registered && !s.reader.Rejected?,
         received := received + chunk)
    }

    function ReadFailed(): Session
      requires pending > 0
    {
      this.(pending := pending - 1, registered := false, closed := true, readFailed := true)
    }

    function Wrote(): Session
      requires box.CanComplete()
    {
      this.(box := box.Wrote())
    }

    function WriteFailed(k: nat): Session
      requires box.writes != [] && k <= |box.writes[0]|
    {
      this.(box := box.WriteFailed(k), registered := false, closed := true)
    }
  }

  lemma GotBytesShape(s: Session, chunk: Octets)
    requires s.pending > 0 && s.reader.Ok()
    ensures var f := Feed(Big, s.reader, chunk);
            s.GotBytes(chunk) == Session(f.rest, s.box.SendAll(Frames(Big, f.msgs)),
                                         if chunk != [] && f.rest.Live() then s.pending else s.pending - 1,
                                         s.registered && !f.rest.Rejected?, s.closed, s.received + chunk, s.readFailed)
  {
  }

  /** The state `accept_callback_` leaves: one read armed, the session on the map. */
  const STARTED := Session(Head([]), EMPTY, 1, true, false, [], false)

  datatype Event = GotBytes(chunk: Octets) | ReadFailed | Wrote | WriteFailed(k: nat)

  /**
   * What asio may do next. A successful read has 1 to 2048 bytes, a failed write any number of
   * bytes of its buffer. After a negative length nothing is claimed, so nothing is enabled.
   */
  predicate Enabled(s: Session, e: Event) {
    && !s.reader.Faulted?
    && s.reader.Ok()
    && match e
       case GotBytes(c) => s.pending > 0 && 0 < |c| <= MAX_LENGTH
       case ReadFailed => s.pending > 0
       case Wrote => s.box.CanComplete()
       case WriteFailed(k) => s.box.writes != [] && k <= |s.box.writes[0]|
  }

  function Next(s: Session, e: Event): Session
    requires Enabled(s, e)
  {
    match e
    case GotBytes(c) => s.GotBytes(c)
    case ReadFailed => s.ReadFailed()
    case Wrote => s.Wrote()
    case WriteFailed(k) => s.WriteFailed(k)
  }

  predicate Legal(s: Session, es: seq<Event>)
    decreases |es|
  {
    es != [] ==> Enabled(s, es[0]) && Legal(Next(s, es[0]), es[1..])
  }

  function Run(s: Session, es: seq<Event>): Session
    requires Legal(s, es)
    decreases |es|
  {
    if es == [] then s else Run(Next(s, es[0]), es[1..])
  }

  ghost predicate Inv(s: Session) {
    && s.box.Inv()
    && s.reader.Ok()
    && (exists ms :: Parse(Big, s.received) == Parsed(ms, s.reader) && s.box.log.offered == Frames(Big, ms))
    && s.pending == (if s.reader.Live() && !s.readFailed then 1 else 0)
    && (s.registered <==> !s.reader.Rejected? && !s.box.log.failed && !s.readFailed)
    && (s.closed <==> s.box.log.failed || s.readFailed)
  }

  lemma GotBytesInv(s: Session, chunk: Octets)
    requires Inv(s) && Enabled(s, GotBytes(chunk))
    ensures Inv(s.GotBytes(chunk))
  {
    hide Parse, Feed, Frame;
    var ms :| Parse(Big, s.received) == Parsed(ms, s.reader) && s.box.log.offered == Frames(Big, ms);
    var f := Feed(Big, s.reader, chunk);
    ParseResumes(Big, s.received, chunk);
    SendAllInv(s.box, Frames(Big, f.msgs));
    FramesAppend(Big, ms, f.msgs);
  }

  lemma StepInv(s: Session, e: Event)
    requires Inv(s) && Enabled(s, e)
    ensures Inv(Next(s, e))
  {
    hide Parse, Feed, Frame;
    match e
    case GotBytes(c) => GotBytesInv(s, c);
    case ReadFailed =>
    case Wrote => WroteInv(s.box);
    case WriteFailed(k) => WriteFailedInv(s.box, k);
  }

  lemma {:induction false} RunInv(s: Session, es: seq<Event>)
    requires Inv(s) && Legal(s, es)
    ensures Inv(Run(s, es))
    decreases |es|
  {
    if es != [] {
      StepInv(s, es[0]);
      RunInv(Next(s, es[0]), es[1..]);
    }
  }

  lemma StartedInv()
    ensures Inv(STARTED)
  {
    assert Parse(Big, []) == Parsed([], Head([])) && Frames(Big, []) == [];
  }

  /** Everything that holds after any legal run. */
  lemma ReachableInv(es: seq<Event>)
    requires Legal(STARTED, es)
    ensures Inv(Run(STARTED, es))
  {
    StartedInv();
    RunInv(STARTED, es);
  }

  /** The bytes of an unfinished frame. */
  function Residue(r: Reader): Octets {
    match r
    case Head(p) => p
    case Body(n, p) => EncodeShort(Big, n) + p
    case _ => []
  }

  lemma WireIsPrefixOfStream(received: Octets, ms: seq<Octets>, r: Reader)
    requires Splits(Big, received, ms, r)
    ensures Wire(Big, ms) <= received
  {
    hide Wire, EncodeShort, DecodeShort;
    var w := Wire(Big, ms);
    if r.Body? {
      Regroup(w, EncodeShort(Big, r.need), r.part);
    }
  }

  /** A stream is the wire form of its messages followed by the unfinished frame. */
  lemma StreamIsFramesAndResidue(received: Octets, ms: seq<Octets>, r: Reader)
    requires Parse(Big, received) == Parsed(ms, r)
    ensures var w := Wire(Big, ms);
            && w <= received
            && (r.Live() ==> received == w + Residue(r))
            && (r.Rejected? ==>
                  |received| >= |w| + 2 && DecodeShort(Big, received[|w|], received[|w| + 1]) > MAX_LENGTH)
  {
    hide Parse, Wire, EncodeShort, DecodeShort;
    ParseSplits(Big, received);
    WireIsPrefixOfStream(received, ms, r);
    if r.Body? {
      Regroup(Wire(Big, ms), EncodeShort(Big, r.need), r.part);
    }
  }

  /** The chunks that a run brought. */
  function Arrived(es: seq<Event>): seq<Octets>
    decreases |es|
  {
    if es == [] then []
    else if es[0].GotBytes? then [es[0].chunk] + Arrived(es[1..])
    else Arrived(es[1..])
  }

  /** How many writes a run completed. */
  function Completions(es: seq<Event>): nat
    decreases |es|
  {
    if es == [] then 0 else (if es[0].Wrote? then 1 else 0) + Completions(es[1..])
  }

  lemma EventIsRecorded(s: Session, e: Event)
    requires Inv(s) && Enabled(s, e)
    ensures var n := Next(s, e);
            && n.received == s.received + (if e.GotBytes? then e.chunk else [])
            && |n.box.log.completed| == |s.box.log.completed| + (if e.Wrote? then 1 else 0)
            && (n.readFailed <==> s.readFailed || e.ReadFailed?)
            && (n.box.log.failed <==> s.box.log.failed || e.WriteFailed?)
            && (e.WriteFailed? ==> n.box.log.cut == e.k && !s.box.log.failed)
            && (s.box.log.failed ==> n.box.log.cut == s.box.log.cut)
  {
    hide Parse, Feed, Frame, Frames, Flatten, Subsequence;
    if e.GotBytes? {
      SendAllInv(s.box, Frames(Big, Feed(Big, s.reader, e.chunk).msgs));
    }
  }

  /** What arrived and what completed, told from the events of a run. */
  lemma {:induction false} EventsAreRecorded(s: Session, es: seq<Event>)
    requires Inv(s) && Legal(s, es)
    ensures var n := Run(s, es);
            && n.received == s.received + Flatten(Arrived(es))
            && |n.box.log.completed| == |s.box.log.completed| + Completions(es)
    decreases |es|
  {
    hide Inv, Next, Enabled;
    if es == [] {
      assert s.received + [] == s.received;
    } else {
      EventIsRecorded(s, es[0]);
      StepInv(s, es[0]);
      EventsAreRecorded(Next(s, es[0]), es[1..]);
      ArrivedFirst(s.received, es);
      hide Arrived, Flatten;
    }
  }

  lemma ArrivedFirst(sofar: Octets, es: seq<Event>)
    requires es != []
    ensures sofar + Flatten(Arrived(es))
         == sofar + (if es[0].GotBytes? then es[0].chunk else []) + Flatten(Arrived(es[1..]))
  {
    var rest := Arrived(es[1..]);
    if es[0].GotBytes? {
      assert ([es[0].chunk] + rest)[1..] == rest;
      hide Arrived;
      Regroup(sofar, es[0].chunk, Flatten(rest));
    } else {
      assert sofar + [] == sofar;
    }
  }

  /** Which errors happened, told from the events of a run. At most one write fails. */
  lemma {:induction false} FailuresAreRecorded(s: Session, es: seq<Event>)
    requires Inv(s) && Legal(s, es)
    ensures var n := Run(s, es);
            && (n.readFailed <==> s.readFailed || ReadFailed in es)
            && (n.box.log.failed <==> s.box.log.failed || exists k :: WriteFailed(k) in es)
            && (forall k :: WriteFailed(k) in es ==> n.box.log.cut == k && !s.box.log.failed)
            && (s.box.log.failed ==> n.box.log.cut == s.box.log.cut)
    decreases |es|
  {
    hide Inv, Next, Enabled;
    if es != [] {
      EventIsRecorded(s, es[0]);
      StepInv(s, es[0]);
      FailuresAreRecorded(Next(s, es[0]), es[1..]);
      hide Legal, Run;
      assert es == [es[0]] + es[1..];
      assert forall e :: e in es <==> e == es[0] || e in es[1..];
    }
  }

  /** The session has received exactly the bytes of the run's reads. */
  lemma ReceivedIsWhatArrived(es: seq<Event>)
    requires Legal(STARTED, es)
    ensures Run(STARTED, es).received == Flatten(Arrived(es))
  {
    StartedInv();
    EventsAreRecorded(STARTED, es);
    assert [] + Flatten(Arrived(es)) == Flatten(Arrived(es));
  }

  /**
   * The echo law, over every run. If no send was refused, and none is before there have been more
   * messages than a queue holds, what has been accepted for sending is the stream that arrived up to
   * its last complete frame, byte for byte; what is on the wire is always a prefix of what arrived.
   */
  lemma EchoIdentity(es: seq<Event>)
    requires Legal(STARTED, es)
    ensures var s := Run(STARTED, es);
            var stream := Flatten(Arrived(es));
            var echoed := Flatten(s.box.log.accepted);
            && (|Parse(Big, stream).msgs| <= 1001 ==> |s.box.log.accepted| == |s.box.log.offered|)
            && (|s.box.log.accepted| == |s.box.log.offered| ==>
                  && s.box.log.wire <= echoed <= stream
                  && (s.reader.Live() ==> stream == echoed + Residue(s.reader))
                  && (s.reader.Rejected? ==>
                        |stream| >= |echoed| + 2
                        && DecodeShort(Big, stream[|echoed|], stream[|echoed| + 1]) > MAX_LENGTH))
  {
    ReachableInv(es);
    ReceivedIsWhatArrived(es);
    hide Run, Legal, Parse, Frame, Residue, Flatten, Arrived;
    var s := Run(STARTED, es);
    var ms :| Parse(Big, s.received) == Parsed(ms, s.reader) && s.box.log.offered == Frames(Big, ms);
    StreamIsFramesAndResidue(s.received, ms, s.reader);
    SubsequenceLength(s.box.log.accepted, s.box.log.offered);
    WireIsPrefix(s.box);
  }

  /**
   * The session's history, over every run: the messages offered to `send` are those that the
   * whole-stream parser finds in what arrived, where it leaves off too; accepted frames are a
   * subsequence of them; each accepted frame has completed or is queued, in order, as many as writes
   * completed; and the queue is bounded.
   */
  lemma WireConservation(es: seq<Event>)
    requires Legal(STARTED, es)
    ensures var s := Run(STARTED, es);
            && Parse(Big, Flatten(Arrived(es))).rest == s.reader
            && s.box.log.offered == Frames(Big, Parse(Big, Flatten(Arrived(es))).msgs)
            && Subsequence(s.box.log.accepted, s.box.log.offered)
            && s.box.log.completed + s.box.queue == s.box.log.accepted
            && |s.box.log.completed| == Completions(es)
            && s.box.log.wire <= Flatten(s.box.log.accepted)
            && |s.box.queue| <= MAX_SENDQUE + 1
            && (s.box.writes != [] ==> s.box.queue != [] && s.box.writes == [s.box.queue[0]])
  {
    ReachableInv(es);
    ReceivedIsWhatArrived(es);
    StartedInv();
    EventsAreRecorded(STARTED, es);
    hide Run, Legal, Parse, Arrived, Completions;
    WireIsPrefix(Run(STARTED, es).box);
  }

  /** At most one read is outstanding: one exactly until a rejection or a read error. */
  lemma OneOutstandingRead(es: seq<Event>)
    requires Legal(STARTED, es)
    ensures var s := Run(STARTED, es);
            && s.pending <= 1
            && (s.pending == 1 <==> s.reader.Live() && !s.readFailed)
            && (s.registered <==> !s.reader.Rejected? && !s.box.log.failed && !s.readFailed)
            && (s.readFailed <==> ReadFailed in es)
            && (s.box.log.failed <==> exists k :: WriteFailed(k) in es)
  {
    ReachableInv(es);
    StartedInv();
    FailuresAreRecorded(STARTED, es);
  }

  /**
   * What may happen after any run: a read may bring any chunk exactly while reading goes on, and the
   * write of the front may complete, or fail anywhere, exactly while something is queued and none failed.
   */
  lemma WhatMayHappen(es: seq<Event>, c: Octets, k: nat)
    requires Legal(STARTED, es) && !Run(STARTED, es).reader.Faulted?
    ensures var s := Run(STARTED, es);
            && (0 < |c| <= 2048 ==> (Enabled(s, GotBytes(c)) <==> !s.reader.Rejected? && !s.readFailed))
            && (Enabled(s, ReadFailed) <==> !s.reader.Rejected? && !s.readFailed)
            && (Enabled(s, Wrote) <==> s.box.queue != [] && !s.box.log.failed)
            && (Enabled(s, WriteFailed(k)) <==> s.box.queue != [] && !s.box.log.failed && k <= |s.box.queue[0]|)
  {
    ReachableInv(es);
    hide Run, Legal, Parse, Subsequence, Flatten;
  }

  predicate NoWriteFails(es: seq<Event>) {
    forall i :: 0 <= i < |es| ==> !es[i].WriteFailed?
  }

  lemma DrainStep(s: Session, e: Event)
    requires Inv(s) && s.reader.Rejected? && !s.box.log.failed
    requires Enabled(s, e) && !e.WriteFailed?
    ensures e.Wrote? && s.box.queue != [] && s.pending == 0
    ensures var t := Next(s, e);
            && Inv(t) && !t.box.log.failed
            && t == s.(box := t.box)
            && t.box.queue == s.box.queue[1..]
            && t.box.log.completed == s.box.log.completed + [s.box.queue[0]]
            && t.box.log.accepted == s.box.log.accepted
  {
    StepInv(s, e);
  }

  /**
   * Once an oversized length took the session off the map, nothing is read or accepted any more;
   * if no write fails the queued frames go out in order, and the last reference to the session
   * disappears after exactly as many write completions as frames were queued.
   */
  lemma {:induction false} DrainAfterRejection(s: Session, es: seq<Event>)
    requires Inv(s) && s.reader.Rejected? && !s.box.log.failed
    requires Legal(s, es) && NoWriteFails(es)
    ensures |es| <= |s.box.queue| && forall i :: 0 <= i < |es| ==> es[i].Wrote?
    ensures var t := Run(s, es);
            && t.box.queue == s.box.queue[|es|..]
            && t.box.log.completed == s.box.log.completed + s.box.queue[..|es|]
            && t.box.log.accepted == s.box.log.accepted
            && t.received == s.received
            && t.pending == 0
            && (t.Held() <==> |es| < |s.box.queue|)
            && (|es| < |s.box.queue| ==> Enabled(t, Wrote))
    decreases |es|
  {
    hide Parse, Feed, Subsequence, Flatten, Next;
    if es != [] {
      DrainStep(s, es[0]);
      var n := Next(s, es[0]);
      DrainAfterRejection(n, es[1..]);
      assert forall i :: 0 < i < |es| ==> es[i] == es[1..][i - 1];
      assert n.box.queue[|es| - 1..] == s.box.queue[|es|..];
      assert [s.box.queue[0]] + n.box.queue[..|es| - 1] == s.box.queue[..|es|];
    }
  }

  /**
   * After a write error nothing is ever written again, whatever else happens: the failed front is
   * never popped, so every later send finds a non-empty queue.
   */
  lemma {:induction false} SilenceAfterWriteError(s: Session, es: seq<Event>)
    requires Inv(s) && s.box.log.failed && Legal(s, es)
    ensures var t := Run(s, es);
            && t.box.log.failed && t.box.writes == []
            && t.box.log.wire == s.box.log.wire
            && t.box.log.completed == s.box.log.completed
            && s.box.queue <= t.box.queue
    decreases |es|
  {
    hide Parse, Feed, Subsequence, Flatten;
    if es != [] {
      var n := Next(s, es[0]);
      StepInv(s, es[0]);
      if es[0].GotBytes? {
        SendAllInv(s.box, Frames(Big, Feed(Big, s.reader, es[0].chunk).msgs));
      }
      SilenceAfterWriteError(n, es[1..]);
    }
  }
}
