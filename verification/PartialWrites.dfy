/**
 * The S01 queue over `async_write_some`, which may write any part of its buffer. The value model
 * and its run theorems come first, then the session's own objects.
 */
module PartialWrites {
  import opened Bytes

  datatype Node = Node(bytes: Octets, cur: nat)

  /** `send_node_`, which only `write_to_socket_err` sets: null, or standing at some count. */
  datatype SendNode = Null | At(cur: nat)

  /**
   * `out` lists the buffers of all writes not yet completed; `written` is every message given to
   * `write_to_socket`. `faulted`: undefined behaviour was reached.
   */
  datatype Writer = Writer(
    sendNode: SendNode,
    queue: seq<Node>,
    pending: bool,
    out: seq<Octets>,
    written: seq<Octets>,
    popped: seq<Octets>,
    wire: Octets,
    failed: bool,
    faulted: bool)
  {
    function Write(buf: Octets): Writer {
      this.(queue := queue + [Node(buf, 0)], written := written + [buf],
            out := if pending then out else out + [buf], pending := true)
    }

    predicate CanComplete(n: nat) {
      && !faulted && out != [] && queue != []
      && (forall i :: 0 <= i < |queue| ==> queue[i].cur <= |queue[i].bytes|)
      && queue[0].cur + n <= |queue[0].bytes|
      && if out[0] == [] then n == 0 else 0 < n <= |out[0]|
    }

    function Advanced(n: nat): Writer
      requires CanComplete(n)
    {
      this.(out := out[1..], wire := wire + out[0][..n],
            queue := queue[0 := Node(queue[0].bytes, queue[0].cur + n)])
    }

    function WriteRest(): Writer
      requires queue != [] && queue[0].cur <= |queue[0].bytes|
    {
      this.(out := out + [queue[0].bytes[queue[0].cur..]])
    }

    /** A write ended after `n` bytes. The next node is sent from the offset of `send_node_`. */
    function Completed(n: nat): Writer
      requires CanComplete(n)
    {
      var w := Advanced(n);
      if w.queue[0].cur < |w.queue[0].bytes| then w.WriteRest() else w.PopAndWriteNext()
    }

    function PopAndWriteNext(): Writer
      requires queue != [] && forall i :: 0 <= i < |queue| ==> queue[i].cur <= |queue[i].bytes|
    {
      var q := queue[1..];
      var v := this.(queue := q, popped := popped + [queue[0].bytes]);
      if q == [] then v.(pending := false)
      else if sendNode != At(0) then v.(faulted := true)
      else v.(out := out + [q[0].bytes[..|q[0].bytes| - q[0].cur]])
    }

    function Failed(): Writer
      requires !faulted && out != []
    {
      this.(out := out[1..], failed := true)
    }

    /** Bytes and nodes still to be written. */
    function Remaining(): nat {
      RemainingIn(queue)
    }

    ghost predicate Inv() {
      && !faulted
      && (pending <==> queue != [])
      && (failed ==> queue != [])
      && (forall i :: 0 < i < |queue| ==> queue[i].cur == 0)
      && (queue != [] ==> queue[0].cur < |queue[0].bytes| || queue[0] == Node([], 0))
      && out == (if queue == [] || failed then [] else [queue[0].bytes[queue[0].cur..]])
      && written == popped + Bodies(queue)
      && wire == Flatten(popped) + (if queue == [] then [] else queue[0].bytes[..queue[0].cur])
    }
  }

  function Bodies(q: seq<Node>): (r: seq<Octets>)
    ensures |r| == |q| && forall i :: 0 <= i < |q| ==> r[i] == q[i].bytes
  {
    seq(|q|, i requires 0 <= i < |q| => q[i].bytes)
  }

  function RemainingIn(q: seq<Node>): nat {
    if q == [] then 0
    else 1 + (if q[0].cur <= |q[0].bytes| then |q[0].bytes| - q[0].cur else 0) + RemainingIn(q[1..])
  }

  function Start(sendNode: SendNode): Writer {
    Writer(sendNode, [], false, [], [], [], [], false, false)
  }

  datatype Event = Write(buf: Octets) | Completed(n: nat) | Failed

  predicate Enabled(w: Writer, e: Event) {
    !w.faulted &&
    match e
    case Write(_) => true
    case Completed(n) => w.CanComplete(n)
    case Failed => w.out != []
  }

  function Next(w: Writer, e: Event): Writer
    requires Enabled(w, e)
  {
    match e
    case Write(buf) => w.Write(buf)
    case Completed(n) => w.Completed(n)
    case Failed => w.Failed()
  }

  predicate Legal(w: Writer, es: seq<Event>)
    decreases |es|
  {
    es != [] ==> Enabled(w, es[0]) && Legal(Next(w, es[0]), es[1..])
  }

  function Run(w: Writer, es: seq<Event>): Writer
    requires Legal(w, es)
    decreases |es|
  {
    if es == [] then w else Run(Next(w, es[0]), es[1..])
  }

  lemma WriteInv(w: Writer, buf: Octets)
    requires w.Inv()
    ensures w.Write(buf).Inv()
  {
    assert Bodies(w.queue + [Node(buf, 0)]) == Bodies(w.queue) + [buf];
    hide Flatten, Bodies;
    assert w.popped + (Bodies(w.queue) + [buf]) == w.popped + Bodies(w.queue) + [buf];
    assert buf[0..] == buf;
  }

  /**
   * A completion goes wrong exactly when it finishes a message, another is queued, and
   * `send_node_` does not stand at 0; otherwise it keeps the invariant and makes progress.
   */
  lemma CompletedInv(w: Writer, n: nat)
    requires w.Inv() && w.CanComplete(n)
    ensures var v := w.Completed(n);
            && (v.faulted <==> w.queue[0].cur + n == |w.queue[0].bytes| && |w.queue| > 1 && w.sendNode != At(0))
            && (!v.faulted ==> v.Inv())
            && v.Remaining() < w.Remaining()
            && v.sendNode == w.sendNode && v.written == w.written
  {
    if w.queue[0].cur + n < |w.queue[0].bytes| {
      ProgressInv(w, n);
    } else {
      FinishInv(w, n);
    }
  }

  lemma ProgressInv(w: Writer, n: nat)
    requires w.Inv() && w.CanComplete(n) && w.queue[0].cur + n < |w.queue[0].bytes|
    ensures w.Completed(n).Inv() && w.Completed(n).Remaining() < w.Remaining()
  {
    var front, v := w.queue[0], w.Completed(n);
    assert w.out[0][..n] == front.bytes[front.cur..front.cur + n];
    assert front.bytes[..front.cur] + w.out[0][..n] == front.bytes[..front.cur + n];
    assert Bodies(v.queue) == Bodies(w.queue);
    assert v.queue[1..] == w.queue[1..];
  }

  lemma FrontWire(sofar: Octets, body: Octets, cur: nat, n: nat)
    requires cur + n == |body|
    ensures sofar + body[..cur] + body[cur..][..n] == sofar + body
  {
    assert body[..cur] + body[cur..][..n] == body;
    assert sofar + body[..cur] + body[cur..][..n] == sofar + (body[..cur] + body[cur..][..n]);
  }

  lemma FrontBodies(popped: seq<Octets>, q: seq<Node>)
    requires q != []
    ensures popped + Bodies(q) == popped + [q[0].bytes] + Bodies(q[1..])
  {
    assert Bodies(q) == [q[0].bytes] + Bodies(q[1..]);
  }

  /** Popping a finished front moves it from the queue to the finished messages, on the wire whole. */
  lemma FinishHistory(w: Writer, n: nat)
    requires w.Inv() && w.CanComplete(n) && w.queue[0].cur + n == |w.queue[0].bytes|
    ensures var v := w.Completed(n);
            && v.queue == w.queue[1..] && v.popped == w.popped + [w.queue[0].bytes]
            && v.wire == Flatten(v.popped)
            && w.written == v.popped + Bodies(v.queue)
  {
    hide Flatten, Bodies;
    var front := w.queue[0];
    assert w.queue[0 := Node(front.bytes, front.cur + n)][1..] == w.queue[1..];
    FrontWire(Flatten(w.popped), front.bytes, front.cur, n);
    FrontBodies(w.popped, w.queue);
    FlattenSnoc(w.popped, front.bytes);
  }

  lemma FinishInv(w: Writer, n: nat)
    requires w.Inv() && w.CanComplete(n) && w.queue[0].cur + n == |w.queue[0].bytes|
    ensures var v := w.Completed(n);
            && (v.faulted <==> |w.queue| > 1 && w.sendNode != At(0))
            && (!v.faulted ==> v.Inv())
            && v.Remaining() < w.Remaining()
  {
    FinishHistory(w, n);
    hide Flatten, Bodies;
    var v := w.Completed(n);
    if v.queue != [] {
      var next := v.queue[0];
      assert next.cur == 0 && next.bytes[..0] == [];
      assert next.bytes[..|next.bytes|] == next.bytes[0..];
    }
  }

  lemma {:induction false} RunInv(w: Writer, es: seq<Event>)
    requires w.Inv() && Legal(w, es)
    ensures !Run(w, es).faulted ==> Run(w, es).Inv()
    ensures w.sendNode == At(0) ==> !Run(w, es).faulted
    decreases |es|
  {
    assert !w.faulted;
    hide Writer.Inv, Writer.Remaining;
    if es != [] {
      var v := Next(w, es[0]);
      match es[0] {
        case Write(buf) => WriteInv(w, buf);
        case Completed(n) => CompletedInv(w, n);
        case Failed => FailedInv(w);
      }
      if v.faulted {
        assert es[1..] == [];
      } else {
        RunInv(v, es[1..]);
      }
    }
  }

  lemma FailedInv(w: Writer)
    requires w.Inv() && w.out != []
    ensures w.Failed().Inv()
  {
  }

  /** The messages given to `write_to_socket` in a run. */
  function Messages(es: seq<Event>): seq<Octets>
    decreases |es|
  {
    if es == [] then [] else (if es[0].Write? then [es[0].buf] else []) + Messages(es[1..])
  }

  /** The bytes that the socket reported as written. */
  function BytesReported(es: seq<Event>): nat
    decreases |es|
  {
    if es == [] then 0 else (if es[0].Completed? then es[0].n else 0) + BytesReported(es[1..])
  }

  /** What a run was given, what it got out, and whether it failed, told from its events. */
  lemma {:induction false} EventsAreRecorded(w: Writer, es: seq<Event>)
    requires Legal(w, es)
    ensures var v := Run(w, es);
            && v.written == w.written + Messages(es)
            && |v.wire| == |w.wire| + BytesReported(es)
            && (v.failed <==> w.failed || Failed in es)
            && v.sendNode == w.sendNode
    decreases |es|
  {
    hide Next, Enabled;
    if es == [] {
      assert w.written + [] == w.written;
    } else {
      var v := Next(w, es[0]);
      EventIsRecorded(w, es[0]);
      EventsAreRecorded(v, es[1..]);
      FailedFirst(es);
      MessagesFirst(w.written, es);
      hide Messages;
    }
  }

  lemma FailedFirst(es: seq<Event>)
    requires es != []
    ensures Failed in es <==> es[0] == Failed || Failed in es[1..]
  {
    assert es == [es[0]] + es[1..];
  }

  lemma MessagesFirst(sofar: seq<Octets>, es: seq<Event>)
    requires es != []
    ensures sofar + Messages(es) == sofar + (if es[0].Write? then [es[0].buf] else []) + Messages(es[1..])
  {
  }

  lemma EventIsRecorded(w: Writer, e: Event)
    requires Enabled(w, e)
    ensures var v := Next(w, e);
            && v.written == w.written + (if e.Write? then [e.buf] else [])
            && |v.wire| == |w.wire| + (if e.Completed? then e.n else 0)
            && (v.failed <==> w.failed || e == Failed)
            && v.sendNode == w.sendNode
  {
  }

  lemma NothingRecordedYet(sendNode: SendNode)
    ensures Start(sendNode).Inv()
  {
  }

  /** The wire never holds anything but a prefix of what was given, and all of it when all is quiet. */
  lemma WireIsPrefix(w: Writer)
    requires w.Inv()
    ensures w.wire <= Flatten(w.written)
    ensures !w.failed && w.out == [] ==> w.wire == Flatten(w.written)
  {
    var bodies := Bodies(w.queue);
    FlattenAppend(w.popped, bodies);
    if w.queue != [] {
      assert bodies[0] == w.queue[0].bytes;
      assert Flatten(bodies) == w.queue[0].bytes + Flatten(bodies[1..]);
      PrefixOfFront(Flatten(w.popped), w.queue[0].bytes, Flatten(bodies[1..]), w.queue[0].cur);
    } else {
      assert bodies == [] && w.popped + bodies == w.popped && Flatten(w.popped) + [] == Flatten(w.popped);
    }
  }

  lemma PrefixOfFront(sofar: Octets, front: Octets, rest: Octets, cur: nat)
    requires cur <= |front|
    ensures sofar + front[..cur] <= sofar + (front + rest)
  {
    assert front + rest == front[..cur] + (front[cur..] + rest);
  }

  /**
   * Over every run, whatever counts the socket reports: the wire is the finished messages and then
   * the written part of the front, the one buffer outstanding is the unwritten part of the front,
   * and a write is pending exactly while the queue is non-empty. The wire is a prefix of the messages
   * given in the run, as long as the counts reported say, and all of them when all is quiet. With
   * `send_node_` standing at 0 this never breaks down.
   */
  lemma PartialWritesRefineTheQueue(sendNode: SendNode, es: seq<Event>)
    requires Legal(Start(sendNode), es)
    ensures var w := Run(Start(sendNode), es);
            && (sendNode == At(0) ==> !w.faulted)
            && w.written == Messages(es)
            && |w.wire| == BytesReported(es)
            && (!w.faulted ==> w.Inv() && w.wire <= Flatten(Messages(es)))
            && (!w.faulted && Failed !in es && w.out == [] ==> w.wire == Flatten(Messages(es)))
  {
    var s := Start(sendNode);
    NothingRecordedYet(sendNode);
    RunInv(s, es);
    EventsAreRecorded(s, es);
    hide Run, Legal, Writer.Inv, Flatten;
    var w := Run(s, es);
    assert [] + Messages(es) == Messages(es);
    if !w.faulted {
      WireIsPrefix(w);
    }
  }

  /** The socket may report any part of what is left of the front, exactly while something is queued. */
  lemma WhatMayHappen(w: Writer, n: nat)
    requires w.Inv()
    ensures Enabled(w, Completed(n)) <==>
              && w.queue != [] && !w.failed
              && var left := |w.queue[0].bytes| - w.queue[0].cur; if left == 0 then n == 0 else 0 < n <= left
    ensures Enabled(w, Failed) <==> w.queue != [] && !w.failed
  {
    hide Flatten, Bodies;
  }

  /** Only completions: at most as many as there are bytes and nodes left. */
  lemma {:induction false} CompletionsAreBounded(w: Writer, es: seq<Event>)
    requires w.Inv() && Legal(w, es) && forall i :: 0 <= i < |es| ==> es[i].Completed?
    ensures |es| + Run(w, es).Remaining() <= w.Remaining()
    decreases |es|
  {
    assert !w.faulted;
    hide Writer.Inv, Writer.Remaining;
    if es != [] {
      CompletedInv(w, es[0].n);
      var v := Next(w, es[0]);
      assert forall i :: 0 < i < |es| ==> es[i] == es[1..][i - 1];
      if v.faulted {
        assert es[1..] == [];
      } else {
        CompletionsAreBounded(v, es[1..]);
      }
    }
  }

  /** The breakdown is reachable: nothing but two messages in a row, `send_node_` never set. */
  lemma SecondMessageFaults(a: Octets, b: Octets)
    requires a != []
    ensures var es := [Write(a), Write(b), Completed(|a|)];
            Legal(Start(Null), es) && Run(Start(Null), es).faulted
  {
    var s := Start(Null);
    var s2 := s.Write(a).Write(b);
    var v := s2.Completed(|a|);
    var es := [Write(a), Write(b), Completed(|a|)];
    assert Next(s, es[0]) == s.Write(a) && Next(s.Write(a), es[1..][0]) == s2;
    assert es[1..][1..] == [Completed(|a|)] && Next(s2, Completed(|a|)) == v;
    assert Legal(v, []) && Legal(s2, [Completed(|a|)]);
    assert Legal(s.Write(a), es[1..]);
    assert Run(s2, [Completed(|a|)]) == Run(v, []) == v;
    assert Run(s.Write(a), es[1..]) == v;
  }

  class MsgNode {
    const msg: array<Byte>
    const totalLen: nat
    var curLen: nat

    ghost const text: Octets

    ghost predicate Ok()
      reads this, msg
    {
      totalLen == msg.Length && curLen <= totalLen && msg[..] == text
    }

    ghost function Value(): Node
      reads this
    {
      Node(text, curLen)
    }

    constructor (text: Octets)
      ensures Ok() && fresh(msg) && Value() == Node(text, 0)
    {
      this.text := text;
      totalLen := |text|;
      curLen := 0;
      msg := new Byte[|text|](i requires 0 <= i < |text| => text[i]);
    }
  }

  ghost function Values(nodes: seq<MsgNode>): (q: seq<Node>)
    reads nodes
    ensures |q| == |nodes| && forall i :: 0 <= i < |q| ==> q[i] == nodes[i].Value()
  {
    seq(|nodes|, i requires 0 <= i < |nodes| reads nodes => nodes[i].Value())
  }

  class Session {
    var sendNode: MsgNode?
    var sendQueue: seq<MsgNode>
    var sendPending: bool
    var out: seq<Octets>
    ghost var written: seq<Octets>
    ghost var popped: seq<Octets>
    ghost var wire: Octets
    ghost var failed: bool
    ghost var faulted: bool

    ghost predicate Valid()
      reads `sendQueue, `sendNode, sendQueue, set n | n in sendQueue :: n.msg
    {
      && (forall i :: 0 <= i < |sendQueue| ==> sendQueue[i].Ok() && sendQueue[i] != sendNode)
      && (forall i, j :: 0 <= i < j < |sendQueue| ==> sendQueue[i] != sendQueue[j])
    }

    ghost function Queue(): seq<Node>
      reads `sendQueue, sendQueue
    {
      Values(sendQueue)
    }

    ghost function View(): Writer
      reads this, sendNode, sendQueue
    {
      Writer(if sendNode == null then Null else At(sendNode.curLen),
             Queue(), sendPending, out, written, popped, wire, failed, faulted)
    }

    constructor ()
      ensures Valid() && View() == Start(Null)
    {
      sendNode, sendQueue, sendPending, out := null, [], false, [];
      written, popped, wire, failed, faulted := [], [], [], false, false;
    }

    method WriteToSocket(buf: Octets)
      requires Valid()
      modifies this
      ensures Valid() && View() == old(View()).Write(buf)
    {
      hide Valid, Values;
      Enqueue(buf);
      if sendPending {
        return;
      }
      out := out + [buf];
      sendPending := true;
    }

    method Enqueue(buf: Octets)
      requires Valid()
      modifies `sendQueue, `written
      ensures Valid()
      ensures View() == old(View()).(queue := old(Queue()) + [Node(buf, 0)], written := old(written) + [buf])
    {
      var node := new MsgNode(buf);
      sendQueue := sendQueue + [node];
      written := written + [buf];
      assert Queue() == old(Queue()) + [Node(buf, 0)];
    }

    method WriteCallback(error: bool, bytes: nat)
      requires Valid() && !faulted && out != []
      requires !error ==> View().CanComplete(bytes)
      modifies this, sendQueue
      ensures Valid()
      ensures View() == if error then old(View()).Failed() else old(View()).Completed(bytes)
    {
      if error {
        out := out[1..];
        failed := true;
      } else {
        hide Writer.Advanced, Writer.WriteRest, Writer.PopAndWriteNext;
        Advance(bytes);
        if sendQueue[0].curLen < sendQueue[0].totalLen {
          WriteRest();
        } else {
          PopAndWriteNext();
        }
      }
    }

    method Advance(bytes: nat)
      requires Valid() && View().CanComplete(bytes)
      modifies `out, `wire, sendQueue[0]
      ensures Valid() && View() == old(View()).Advanced(bytes)
    {
      wire := wire + out[0][..bytes];
      out := out[1..];
      sendQueue[0].curLen := sendQueue[0].curLen + bytes;
      assert Queue() == old(Queue())[0 := sendQueue[0].Value()];
    }

    method WriteRest()
      requires Valid() && sendQueue != []
      modifies `out
      ensures Valid() && View() == old(View()).WriteRest()
    {
      var front := sendQueue[0];
      assert front.msg[front.curLen..front.totalLen] == front.text[front.curLen..];
      out := out + [front.msg[front.curLen..front.totalLen]];
    }

    method PopFront()
      requires Valid() && sendQueue != []
      modifies `sendQueue, `popped
      ensures Valid() && sendQueue == old(sendQueue)[1..]
      ensures View() == old(View()).(queue := old(Queue())[1..], popped := old(popped) + [old(Queue())[0].bytes])
    {
      popped := popped + [sendQueue[0].msg[..]];
      sendQueue := sendQueue[1..];
      assert Queue() == old(Queue())[1..];
    }

    /** The front is finished. The next offset is read from `send_node_`, not from the new front. */
    method PopAndWriteNext()
      requires Valid() && sendQueue != []
      modifies this
      ensures Valid()
      ensures View() == old(View()).PopAndWriteNext()
    {
      hide Valid, Values;
      PopFront();
      if sendQueue == [] {
        sendPending := false;
      } else if sendNode == null || sendNode.curLen > 0 {
        faulted := true;
      } else {
        WriteNext();
      }
    }

    /** Send the new front, its start taken from `send_node_` and its length from its own count. */
    method WriteNext()
      requires Valid() && sendQueue != [] && sendNode != null && sendNode.curLen == 0
      modifies `out
      ensures Valid()
      ensures var next := old(Queue())[0];
              View() == old(View()).(out := old(out) + [next.bytes[..|next.bytes| - next.cur]])
    {
      var sendData := sendQueue[0];
      var count := sendData.totalLen - sendData.curLen;
      assert sendData.msg[sendNode.curLen..sendNode.curLen + count] == sendData.text[..count];
      out := out + [sendData.msg[sendNode.curLen..sendNode.curLen + count]];
    }
  }
}
