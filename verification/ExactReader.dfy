/**
 * The S07 session: two reading callbacks that alternate, each completed with exactly the bytes asked
 * for, and the echo of every body through the send queue.
 */
module ExactReader {
  import opened Bytes
  import opened FrameSpec
  import opened SendQueue
  import opened EchoSession

  /** What is echoed of the messages delivered: not a last one that is too long for its frame. */
  function Echoed(ms: seq<Octets>): seq<Octets> {
    if ms != [] && |ms[|ms| - 1]| > MAX_ECHO then ms[..|ms| - 1] else ms
  }

  class ExactSession {
    const order: ByteOrder
    const socket: Socket
    const recvHead: MsgNode
    var recvMsg: MsgNode?
    /** The node the outstanding read fills; null when no read is outstanding. */
    var asked: MsgNode?
    var sendQue: seq<MsgNode>
    var closed: bool
    var registered: bool
    ghost var log: Log
    ghost var delivered: seq<Octets>
    ghost var broken: bool

    /** The nodes being read are well formed and distinct. */
    ghost predicate ReaderOk()
      reads `recvMsg, `asked, recvHead, if recvMsg != null then {recvMsg} else {}
    {
      && recvHead.Ok() && recvHead.totalLen == HEAD_LENGTH
      && (recvMsg != null ==> recvMsg.Ok() && recvMsg != recvHead && recvMsg.data != recvHead.data)
      && (asked == null || asked == recvHead || (recvMsg != null && asked == recvMsg))
    }

    /** Nodes to be sent hold their frames, in buffers the reading side does not touch. */
    ghost predicate NodesOk(nodes: seq<MsgNode>)
      reads `recvMsg, set n | n in nodes :: n.data
    {
      forall n :: n in nodes ==>
        n.Carries() && n.data != recvHead.data && (recvMsg != null ==> n.data != recvMsg.data)
    }

    ghost predicate SenderOk()
      reads `recvMsg, `sendQue, socket`writes
      reads set n | n in sendQue :: n.data, set n | n in socket.writes :: n.data
    {
      && NodesOk(sendQue) && NodesOk(socket.writes)
      && (socket.writes == [] || (sendQue != [] && socket.writes == [sendQue[0]]))
    }

    ghost predicate Valid()
      reads `recvMsg, `asked, `sendQue, socket`writes
      reads recvHead, if recvMsg != null then {recvMsg} else {}
      reads set n | n in sendQue :: n.data, set n | n in socket.writes :: n.data
    {
      ReaderOk() && SenderOk()
    }

    ghost predicate Reading()
      reads `asked
    {
      asked != null
    }

    ghost function Now(): Exact
      requires ReaderOk() && (Reading() || broken)
      reads `recvMsg, `asked, `broken, recvHead, if recvMsg != null then {recvMsg} else {}
    {
      if broken then Broken
      else if asked == recvHead then WantHead
      else WantBody(recvMsg.totalLen)
    }

    ghost function BoxNow(): Outbox
      reads `sendQue, `log, socket`writes
    {
      Outbox(Contents(sendQue), Contents(socket.writes), log)
    }

    constructor (order: ByteOrder)
      ensures Valid() && this.order == order && recvMsg == null && BoxNow() == EMPTY
      ensures fresh(socket) && fresh(recvHead) && fresh(recvHead.data)
      ensures !Reading() && !broken && registered && !closed && delivered == []
    {
      this.order := order;
      socket := new Socket();
      recvHead := new MsgNode.Empty(HEAD_LENGTH);
      recvMsg, asked, sendQue, closed, registered := null, null, [], false, true;
      log, delivered, broken := EMPTY.log, [], false;
    }

    /** Ask for a header. */
    method Start()
      requires Valid()
      modifies `asked, recvHead, recvHead.data
      ensures Valid() && ReaderOk() && asked == recvHead
      ensures forall i :: 0 <= i < HEAD_LENGTH ==> recvHead.data[i] == 0
    {
      recvHead.Clear();
      asked := recvHead;
    }

    method Fail()
      modifies `closed, `registered, `asked
      ensures closed && !registered && asked == null
    {
      closed, registered, asked := true, false, null;
    }

    method Send(msg: array<Byte>, maxLength: nat)
      requires Valid()
      requires maxLength <= msg.Length && maxLength <= MAX_ECHO
      modifies `sendQue, `log, socket`writes
      ensures Valid()
      ensures BoxNow() == old(BoxNow()).Send(Frame(order, old(msg[..maxLength])))
    {
      hide Frame, EncodeShort;
      ghost var f := Frame(order, msg[..maxLength]);
      var size := |sendQue|;
      log := log.(offered := log.offered + [f]);
      if size > MAX_SENDQUE {
        return;
      }
      var node := new MsgNode.FromMessage(order, msg, maxLength);
      sendQue := sendQue + [node];
      log := log.(accepted := log.accepted + [f]);
      if size > 0 {
        return;
      }
      socket.AsyncWrite(sendQue[0]);
    }

    /** Runs when the oldest write ends; on error `sent` bytes of it had gone out. */
    method WriteCallback(error: bool, ghost sent: nat)
      requires Valid() && socket.writes != []
      requires error ==> sent <= |socket.writes[0].frame|
      modifies `sendQue, `log, `closed, `registered, socket`writes
      ensures Valid()
      ensures BoxNow() == if error then old(BoxNow()).WriteFailed(sent) else old(BoxNow()).Wrote()
      ensures closed == (error || old(closed)) && registered == (!error && old(registered))
    {
      ghost var b := BoxNow();
      socket.writes := socket.writes[1..];
      if !error {
        log := log.(completed := log.completed + [b.queue[0]], wire := log.wire + b.writes[0]);
        sendQue := sendQue[1..];
        if sendQue != [] {
          socket.AsyncWrite(sendQue[0]);
        }
      } else {
        log := log.(wire := log.wire + b.writes[0][..sent], failed := true, cut := sent);
        closed, registered := true, false;
      }
    }

    /**
     * An oversized length takes the session off the map, but nothing stops the read of the body:
     * there is no return after the removal.
     */
    method ReadHead(error: bool, count: nat)
      requires Valid() && asked == recvHead && !broken && count <= HEAD_LENGTH
      modifies `recvMsg, `asked, `closed, `registered, `broken
      ensures Valid() && (recvMsg == old(recvMsg) || (recvMsg != null && fresh(recvMsg) && fresh(recvMsg.data)))
      ensures error || count < HEAD_LENGTH ==> closed && !registered && !Reading() && !broken
      ensures !error && count == HEAD_LENGTH ==>
                var n := DecodeShort(order, recvHead.data[0], recvHead.data[1]);
                && (Reading() <==> !broken)
                && Now() == AfterHead(order, recvHead.data[0], recvHead.data[1])
                && registered == (old(registered) && n <= MAX_LENGTH)
                && closed == old(closed)
    {
      if error || count < HEAD_LENGTH {
        Fail();
        return;
      }
      var dataLen := DecodeShort(order, recvHead.data[0], recvHead.data[1]);
      if dataLen > MAX_LENGTH {
        registered := false;
      }
      asked := null;
      if dataLen < 0 {
        broken := true;
        return;
      }
      recvMsg := new MsgNode.Empty(dataLen);
      asked := recvMsg;
    }

    /** Echo the body and ask for the next header. */
    method ReadMsg(error: bool)
      requires Valid() && recvMsg != null && asked == recvMsg && !broken
      modifies `delivered, `asked, `closed, `registered, `broken, `sendQue, `log, socket`writes
      modifies recvHead, recvHead.data, recvMsg.data
      ensures Valid() && recvMsg == old(recvMsg)
      ensures error ==> closed && !registered && !Reading() && !broken && delivered == old(delivered)
      ensures !error ==>
                && registered == old(registered) && closed == old(closed)
                && delivered == old(delivered) + [old(recvMsg.data[..recvMsg.totalLen])]
                && recvMsg.data[recvMsg.totalLen] == 0
                && broken == (recvMsg.totalLen > MAX_ECHO)
                && asked == if broken then null else recvHead
      ensures BoxNow() == if error || broken then old(BoxNow())
                          else old(BoxNow()).Send(Frame(order, old(recvMsg.data[..recvMsg.totalLen])))
    {
      hide Contents, Outbox.Send, Frame;
      if error {
        Fail();
        return;
      }
      recvMsg.data[recvMsg.totalLen] := 0;
      delivered := delivered + [recvMsg.data[..recvMsg.totalLen]];
      assert recvMsg.data[..recvMsg.totalLen] == old(recvMsg.data[..recvMsg.totalLen]);
      asked := null;
      if recvMsg.totalLen > MAX_ECHO {
        broken := true;
        return;
      }
      Send(recvMsg.data, recvMsg.totalLen);
      Start();
    }

    /** `async_read` fills the asked node with the next bytes of the stream. */
    method Fill(bytes: Octets)
      requires Valid() && asked != null && |bytes| == asked.totalLen
      modifies asked.data
      ensures Valid() && asked.data[..|bytes|] == bytes
    {
      forall i | 0 <= i < |bytes| {
        asked.data[i] := bytes[i];
      }
    }

    /** What remains to be computed of `goal` when `left` is still unread; `box` was there at first. */
    ghost predicate Heading(left: Octets, goal: ExactRun, box: Outbox)
      requires ReaderOk() && (Reading() || broken)
      reads `recvMsg, `asked, `broken, `delivered, `registered, `sendQue, `log, socket`writes
      reads recvHead, if recvMsg != null then {recvMsg} else {}
    {
      var x := RunExact(order, Now(), left);
      && goal == ExactRun(delivered + x.msgs, x.state, x.removed || !registered, x.left)
      && BoxNow() == box.SendAll(Frames(order, Echoed(delivered)))
      && (Reading() ==> Echoed(delivered) == delivered)
    }

    method TakeHead(left: Octets, ghost goal: ExactRun, ghost box: Outbox)
      requires Valid() && asked == recvHead && !broken && |left| >= HEAD_LENGTH && Heading(left, goal, box)
      modifies `recvMsg, `asked, `closed, `registered, `broken, recvHead.data
      ensures Valid() && ReaderOk()
      ensures recvMsg == old(recvMsg) || (recvMsg != null && fresh(recvMsg) && fresh(recvMsg.data))
      ensures (Reading() <==> !broken) && Heading(left[HEAD_LENGTH..], goal, box)
      ensures asked != recvHead
    {
      hide SenderOk, Frames, Outbox.SendAll, Contents;
      Fill(left[..HEAD_LENGTH]);
      assert recvHead.data[..HEAD_LENGTH][0] == recvHead.data[0];
      assert recvHead.data[..HEAD_LENGTH][1] == recvHead.data[1];
      ReadHead(false, HEAD_LENGTH);
    }

    method TakeBody(left: Octets, ghost goal: ExactRun, ghost box: Outbox)
      requires Valid() && recvMsg != null && asked == recvMsg && !broken
      requires |left| >= recvMsg.totalLen && Heading(left, goal, box)
      modifies `delivered, `asked, `closed, `registered, `broken, `sendQue, `log, socket`writes
      modifies recvHead, recvHead.data, recvMsg.data
      ensures Valid() && ReaderOk() && recvMsg == old(recvMsg) && (Reading() <==> !broken)
      ensures if Reading() then asked == recvHead else recvMsg.totalLen > 0
      ensures Heading(left[recvMsg.totalLen..], goal, box)
    {
      hide SenderOk, Frame, Frames, Echoed, RunExact, Outbox.SendAll, Outbox.Send, Contents;
      var n := recvMsg.totalLen;
      BodyRead(n, left, delivered);
      EchoOne(box, delivered, left[..n]);
      Fill(left[..n]);
      ReadMsg(false);
    }

    /** A complete body is delivered, and only a body too long to be echoed ends the machine. */
    lemma BodyRead(n: nat, left: Octets, before: seq<Octets>)
      requires |left| >= n
      ensures var x := RunExact(order, WantBody(n), left);
              var next := RunExact(order, if n > MAX_ECHO then Broken else WantHead, left[n..]);
              && x == next.(msgs := [left[..n]] + next.msgs)
              && before + x.msgs == before + [left[..n]] + next.msgs
    {
    }

    /** One more message delivered is one more frame sent, if there is a frame for it. */
    lemma EchoOne(box: Outbox, before: seq<Octets>, body: Octets)
      ensures var after := Echoed(before + [body]);
              if |body| > MAX_ECHO then after == before
              else
                && after == before + [body]
                && box.SendAll(Frames(order, after)) == box.SendAll(Frames(order, before)).Send(Frame(order, body))
    {
      hide Frame;
      assert (before + [body])[..|before|] == before;
      FramesAppend(order, before, [body]);
      SendAllSnoc(box, Frames(order, before), Frame(order, body));
      assert Frames(order, [body]) == [Frame(order, body)];
    }

    /** All completions a byte stream gives rise to, each read getting exactly what it asked for. */
    method Serve(stream: Octets) returns (left: Octets)
      requires Valid() && !Reading() && !broken && registered && delivered == []
      requires recvMsg == null
      modifies this, socket`writes, recvHead, recvHead.data
      ensures Valid() && (Reading() || broken)
      ensures RunExact(order, WantHead, stream) == ExactRun(delivered, Now(), !registered, left)
      ensures BoxNow() == old(BoxNow()).SendAll(Frames(order, Echoed(delivered)))
    {
      hide Valid, Heading, RunExact, BoxNow;
      ghost var box := BoxNow();
      Start();
      left := stream;
      ghost var goal := RunExact(order, WantHead, stream);
      AllAhead(stream, goal, box);
      while asked != null && |left| >= asked.totalLen
        invariant Valid() && ReaderOk() && (Reading() <==> !broken)
        invariant recvMsg == null || (fresh(recvMsg) && fresh(recvMsg.data))
        invariant Heading(left, goal, box)
        decreases |left|, if asked == recvHead then 0 else 1
      {
        var n := asked.totalLen;
        if asked == recvHead {
          TakeHead(left, goal, box);
        } else {
          TakeBody(left, goal, box);
        }
        left := left[n..];
      }
      NothingAhead(left, goal, box);
    }

    /** Before the first read everything is still to be computed. */
    lemma AllAhead(stream: Octets, goal: ExactRun, box: Outbox)
      requires ReaderOk() && asked == recvHead && !broken && registered && delivered == []
      requires goal == RunExact(order, WantHead, stream) && box == BoxNow()
      ensures Heading(stream, goal, box)
    {
      assert [] + goal.msgs == goal.msgs;
      NothingToSend(box);
    }

    /** Too few bytes for the outstanding read, or no read at all: nothing is left to compute. */
    lemma NothingAhead(left: Octets, goal: ExactRun, box: Outbox)
      requires ReaderOk() && (Reading() <==> !broken) && Heading(left, goal, box)
      requires asked == null || |left| < asked.totalLen
      ensures goal == ExactRun(delivered, Now(), !registered, left)
      ensures BoxNow() == box.SendAll(Frames(order, Echoed(delivered)))
    {
      assert RunExact(order, Now(), left) == ExactRun([], Now(), false, left);
      assert delivered + [] == delivered;
    }

    lemma NothingToSend(box: Outbox)
      ensures box.SendAll(Frames(order, [])) == box
    {
    }
  }
}
