/**
 * The outgoing side of an S04/S07 session as a value: the send queue, the writes handed to the
 * socket, and the history of both. Every handler of these servers runs on one thread.
 */
module SendQueue {
  import opened Bytes

  const MAX_SENDQUE := 1000

  /** `offered`: all frames given to `send`; `cut`: bytes of the front a failed write got out. */
  datatype Log = Log(
    offered: seq<Octets>,
    accepted: seq<Octets>,
    completed: seq<Octets>,
    wire: Octets,
    failed: bool,
    cut: nat)

  /** `writes` lists the buffers of all asynchronous writes not yet completed. */
  datatype Outbox = Outbox(queue: seq<Octets>, writes: seq<Octets>, log: Log)
  {
    predicate CanComplete() {
      writes != [] && queue != []
    }

    function Send(f: Octets): Outbox {
      var l := log.(offered := log.offered + [f]);
      if |queue| > MAX_SENDQUE then this.(log := l)
      else
        Outbox(queue + [f],
               if queue == [] then writes + [f] else writes,
               l.(accepted := log.accepted + [f]))
    }

    function SendAll(fs: seq<Octets>): Outbox
      decreases |fs|
    {
      if fs == [] then this else Send(fs[0]).SendAll(fs[1..])
    }

    /** The oldest write completed: the front is popped and the next frame, if any, is issued. */
    function Wrote(): Outbox
      requires CanComplete()
    {
      var q := queue[1..];
      Outbox(q,
             if q == [] then writes[1..] else writes[1..] + [q[0]],
             log.(completed := log.completed + [queue[0]], wire := log.wire + writes[0]))
    }

    /** The oldest write failed after `k` bytes: nothing is popped and nothing is issued. */
    function WriteFailed(k: nat): Outbox
      requires writes != [] && k <= |writes[0]|
    {
      Outbox(queue, writes[1..], log.(wire := log.wire + writes[0][..k], failed := true, cut := k))
    }

    ghost predicate Inv() {
      && |queue| <= MAX_SENDQUE + 1
      && writes == (if queue == [] || log.failed then [] else [queue[0]])
      && (log.failed ==> queue != [] && log.cut <= |queue[0]|)
      && log.completed + queue == log.accepted
      && Subsequence(log.accepted, log.offered)
      && (|log.offered| <= MAX_SENDQUE + 1 ==> log.accepted == log.offered)
      && log.wire == Flatten(log.completed) + (if log.failed then queue[0][..log.cut] else [])
    }
  }

  const EMPTY := Outbox([], [], Log([], [], [], [], false, 0))

  lemma SendInv(b: Outbox, f: Octets)
    requires b.Inv()
    ensures b.Send(f).Inv()
  {
    if |b.queue| > MAX_SENDQUE {
      SubsequenceSkip(b.log.accepted, b.log.offered, f);
    } else {
      SubsequenceKeep(b.log.accepted, b.log.offered, f);
      assert b.log.completed + (b.queue + [f]) == b.log.accepted + [f];
    }
  }

  lemma {:induction false} SendAllInv(b: Outbox, fs: seq<Octets>)
    requires b.Inv()
    ensures b.SendAll(fs).Inv()
    ensures b.queue <= b.SendAll(fs).queue
    ensures b.SendAll(fs).log == b.log.(offered := b.log.offered + fs, accepted := b.SendAll(fs).log.accepted)
    decreases |fs|
  {
    hide Outbox.Inv;
    if fs != [] {
      SendInv(b, fs[0]);
      SendAllInv(b.Send(fs[0]), fs[1..]);
      assert b.log.offered + [fs[0]] + fs[1..] == b.log.offered + fs;
    }
  }

  /** The bound is reached: without completions a queue fills up to one more than the limit. */
  lemma {:induction false} QueueFills(b: Outbox, fs: seq<Octets>)
    requires |b.queue| <= MAX_SENDQUE + 1
    ensures |b.SendAll(fs).queue| == (if |b.queue| + |fs| < 1001 then |b.queue| + |fs| else 1001)
    decreases |fs|
  {
    if fs != [] {
      QueueFills(b.Send(fs[0]), fs[1..]);
    }
  }

  /** The last of several sends. */
  lemma {:induction false} SendAllSnoc(b: Outbox, fs: seq<Octets>, f: Octets)
    ensures b.SendAll(fs + [f]) == b.SendAll(fs).Send(f)
    decreases |fs|
  {
    hide Outbox.Send;
    if fs == [] {
      assert [f][1..] == [] && b.Send(f).SendAll([]) == b.Send(f);
    } else {
      assert (fs + [f])[1..] == fs[1..] + [f];
      SendAllSnoc(b.Send(fs[0]), fs[1..], f);
    }
  }

  lemma WroteInv(b: Outbox)
    requires b.Inv() && b.writes != []
    ensures b.CanComplete() && b.Wrote().Inv()
  {
    hide Flatten, Subsequence;
    FlattenSnoc(b.log.completed, b.queue[0]);
    PopFront(b.log.completed, b.queue);
    NoTail(Flatten(b.log.completed));
    NoTail(Flatten(b.log.completed + [b.queue[0]]));
  }

  lemma PopFront(done: seq<Octets>, q: seq<Octets>)
    requires q != []
    ensures done + [q[0]] + q[1..] == done + q
  {
  }

  lemma NoTail(s: Octets)
    ensures s + [] == s
  {
  }

  lemma WriteFailedInv(b: Outbox, k: nat)
    requires b.Inv() && b.writes != [] && k <= |b.writes[0]|
    ensures b.WriteFailed(k).Inv()
  {
  }

  /** The socket only ever carried whole accepted frames in order, and a cut of the next one. */
  lemma WireIsPrefix(b: Outbox)
    requires b.Inv()
    ensures b.log.wire <= Flatten(b.log.accepted)
  {
    FlattenAppend(b.log.completed, b.queue);
    if b.log.failed {
      assert Flatten(b.queue) == b.queue[0] + Flatten(b.queue[1..]);
      assert b.queue[0][..b.log.cut] <= Flatten(b.queue);
    }
  }
}
