/** The S04 server's own objects: message nodes, the session with its chunk parser, the map. */
module EchoSession {
  import opened Bytes
  import opened FrameSpec
  import opened SendQueue
  import EchoSpec

  /** `memcpy` between two distinct buffers. */
  method CopyBytes(dst: array<Byte>, at: nat, src: array<Byte>, start: nat, count: nat)
    requires dst != src
    requires at + count <= dst.Length && start + count <= src.Length
    modifies dst
    ensures dst[..at] == old(dst[..at])
    ensures dst[at..at + count] == old(src[start..start + count])
    ensures dst[at + count..] == old(dst[at + count..])
  {
    forall i | 0 <= i < count {
      dst[at + i] := src[start + i];
    }
  }

  /** A stretch of a buffer, cut in two. */
  lemma Slices(a: array<Byte>, i: nat, j: nat, k: nat)
    requires i <= j <= k <= a.Length
    ensures a[i..k][..j - i] == a[i..j]
    ensures a[i..k][j - i..] == a[j..k]
  {
  }

  class MsgNode {
    const data: array<Byte>
    const totalLen: nat
    var curLen: nat
    /** What a node was built to carry: the bytes any write of it must put on the wire. */
    ghost const frame: Octets

    ghost predicate Ok()
      reads this
    {
      data.Length == totalLen + 1 && curLen <= totalLen
    }

    ghost predicate Carries()
      reads data
    {
      totalLen < data.Length && data[..totalLen] == frame
    }

    /** A frame ready to be sent: the length in network order, or in S07 as it is, then the body. */
    constructor FromMessage(order: ByteOrder, msg: array<Byte>, maxLen: nat)
      requires maxLen <= msg.Length && IsShort(maxLen + HEAD_LENGTH)
      ensures Ok() && fresh(data) && curLen == 0
      ensures frame == Frame(order, msg[..maxLen]) && Carries() && data[totalLen] == 0
    {
      frame := Frame(order, msg[..maxLen]);
      totalLen := maxLen + HEAD_LENGTH;
      curLen := 0;
      data := new Byte[maxLen + HEAD_LENGTH + 1](_ => 0);
      new;
      var header := EncodeShort(order, maxLen);
      data[0], data[1] := header[0], header[1];
      CopyBytes(data, HEAD_LENGTH, msg, 0, maxLen);
      data[totalLen] := 0;
      assert data[..totalLen] == data[..HEAD_LENGTH] + data[HEAD_LENGTH..HEAD_LENGTH + maxLen];
    }

    constructor Empty(maxLen: nat)
      requires IsShort(maxLen)
      ensures Ok() && fresh(data) && totalLen == maxLen && curLen == 0
      ensures forall i :: 0 <= i < data.Length ==> data[i] == 0
    {
      frame := [];
      totalLen := maxLen;
      curLen := 0;
      data := new Byte[maxLen + 1](_ => 0);
    }

    method Clear()
      requires Ok()
      modifies this, data
      ensures Ok() && curLen == 0
      ensures forall i :: 0 <= i < totalLen ==> data[i] == 0
      ensures data[totalLen] == old(data[totalLen])
    {
      forall i | 0 <= i < totalLen {
        data[i] := 0;
      }
      curLen := 0;
    }

    /** Append `count` bytes of a receive buffer at `curLen`. */
    method Append(src: array<Byte>, start: nat, count: nat)
      requires Ok() && src != data
      requires curLen + count <= totalLen && start + count <= src.Length
      modifies this, data
      ensures Ok() && curLen == old(curLen) + count
      ensures data[..curLen] == old(data[..curLen]) + old(src[start..start + count])
    {
      CopyBytes(data, curLen, src, start, count);
      curLen := curLen + count;
      assert data[..curLen] == data[..curLen - count] + data[curLen - count..curLen];
    }
  }

  /** The operations a session has outstanding on its socket. */
  class Socket {
    var pending: nat
    var writes: seq<MsgNode>

    constructor ()
      ensures pending == 0 && writes == []
    {
      pending, writes := 0, [];
    }

    method AsyncReadSome()
      modifies `pending
      ensures pending == old(pending) + 1
    {
      pending := pending + 1;
    }

    method AsyncWrite(node: MsgNode)
      modifies `writes
      ensures writes == old(writes) + [node]
    {
      writes := writes + [node];
    }
  }

  class CServer {
    var sessions: map<nat, CSession>
    /** The session made for the outstanding accept. */
    var accepting: CSession?

    /** Make a session, under an identifier not in use, and wait for a peer to connect to it. */
    method StartAccept(uuid: nat)
      requires uuid !in sessions
      modifies `accepting
      ensures accepting != null && fresh(accepting) && fresh(accepting.socket) && fresh(accepting.data)
      ensures accepting.Valid() && accepting.server == this && accepting.uuid == uuid
      ensures accepting.View() == EchoSpec.STARTED.(pending := 0, registered := false)
    {
      accepting := new CSession(uuid, this);
    }

    /** Runs when the outstanding accept ends, whose session is `session`. */
    method AcceptCallback(session: CSession, error: bool, nextUuid: nat)
      requires accepting == session && session.server == this && session.Valid()
      requires nextUuid !in sessions && nextUuid != session.uuid
      modifies this, session.socket`pending, session.data
      ensures session.Valid()
      ensures error ==> sessions == old(sessions) && session.View() == old(session.View())
      ensures !error ==>
                && sessions == (if session.uuid in old(sessions) then old(sessions)
                                else old(sessions)[session.uuid := session])
                && session.View()
                   == old(session.View()).(registered := true, pending := old(session.View().pending) + 1)
      ensures accepting != null && fresh(accepting)
      ensures accepting.Valid() && accepting.server == this && accepting.uuid == nextUuid
      ensures accepting.View() == EchoSpec.STARTED.(pending := 0, registered := false)
    {
      hide MsgNode.Ok, CSession.SentNodesOk, CSession.ReaderNow, CSession.BoxNow;
      if !error {
        Admit(session);
      }
      StartAccept(nextUuid);
    }

    /** Start reading and put the session on the map, unless its identifier is already there. */
    method Admit(session: CSession)
      requires session.server == this && session.Valid()
      modifies `sessions, session.socket`pending, session.data
      ensures session.Valid()
      ensures sessions == (if session.uuid in old(sessions) then old(sessions)
                           else old(sessions)[session.uuid := session])
      ensures session.View() == old(session.View()).(registered := true, pending := old(session.View().pending) + 1)
    {
      session.Start();
      if session.uuid !in sessions {
        sessions := sessions[session.uuid := session];
      }
    }

    method RemoveSession(uuid: nat)
      modifies `sessions
      ensures sessions == old(sessions) - {uuid}
    {
      sessions := sessions - {uuid};
    }
  }

  ghost function Contents(nodes: seq<MsgNode>): seq<Octets>
  {
    seq(|nodes|, i requires 0 <= i < |nodes| => nodes[i].frame)
  }

  /** Why the parser stopped for good, if it has. */
  datatype Verdict = Reading | Oversized | Negative

  class CSession {
    const uuid: nat
    const server: CServer
    const socket: Socket
    const data: array<Byte>
    const recvHead: MsgNode
    var recvMsg: MsgNode?
    var headParsed: bool
    var sendQue: seq<MsgNode>
    var closed: bool
    ghost var verdict: Verdict
    ghost var log: Log
    ghost var received: Octets
    ghost var readFailed: bool

    /** The receive buffer and the two nodes being filled are distinct and within bounds. */
    ghost predicate BuffersOk()
      reads `recvMsg, recvHead, if recvMsg != null then {recvMsg} else {}
    {
      && data.Length == MAX_LENGTH
      && recvHead.Ok() && recvHead.totalLen == HEAD_LENGTH && recvHead.data != data
      && (recvMsg != null ==>
            && recvMsg.Ok() && recvMsg != recvHead
            && recvMsg.data != recvHead.data && recvMsg.data != data)
    }

    /**
     * Between callbacks the part being read is unfinished. The header node's count is not advanced
     * when a header completes, so it means something only while no header has been parsed.
     */
    ghost predicate ReaderValid()
      reads `recvMsg, `headParsed, recvHead, if recvMsg != null then {recvMsg} else {}
    {
      && BuffersOk()
      && (!headParsed ==> recvHead.curLen < HEAD_LENGTH)
      && (headParsed ==> recvMsg != null && recvMsg.curLen < recvMsg.totalLen <= MAX_LENGTH)
    }

    /** Nodes to be sent hold their frames, in buffers the reading side does not touch. */
    ghost predicate SentNodesOk(nodes: seq<MsgNode>)
      reads `recvMsg, set n | n in nodes :: n.data
    {
      forall n :: n in nodes ==>
        && n.Carries()
        && n.data != data && n.data != recvHead.data && (recvMsg != null ==> n.data != recvMsg.data)
    }

    /** What holds at every point of a callback, and is all that `send` relies on. */
    ghost predicate Safe()
      reads `recvMsg, `sendQue, socket`writes
      reads recvHead, if recvMsg != null then {recvMsg} else {}
      reads set n | n in sendQue :: n.data, set n | n in socket.writes :: n.data
    {
      && BuffersOk() && SentNodesOk(sendQue) && SentNodesOk(socket.writes)
      && (socket.writes == [] || (sendQue != [] && socket.writes == [sendQue[0]]))
    }

    ghost predicate Valid()
      reads `recvMsg, `headParsed, `sendQue, socket`writes
      reads recvHead, if recvMsg != null then {recvMsg} else {}
      reads set n | n in sendQue :: n.data, set n | n in socket.writes :: n.data
    {
      Safe() && ReaderValid()
    }

    ghost function ReaderNow(): (r: Reader)
      requires ReaderValid()
      reads `recvMsg, `headParsed, `verdict, recvHead, recvHead.data
      reads if recvMsg != null then {recvMsg, recvMsg.data} else {}
      ensures r.Ok()
    {
      if verdict.Oversized? then Rejected
      else if verdict.Negative? then Faulted
      else if headParsed then Body(recvMsg.totalLen, recvMsg.data[..recvMsg.curLen])
      else Head(recvHead.data[..recvHead.curLen])
    }

    ghost function BoxNow(): Outbox
      reads `sendQue, `log, socket`writes
    {
      Outbox(Contents(sendQue), Contents(socket.writes), log)
    }

    ghost function View(): EchoSpec.Session
      requires ReaderValid()
      reads this, socket, server`sessions, recvHead, recvHead.data
      reads if recvMsg != null then {recvMsg, recvMsg.data} else {}
    {
      EchoSpec.Session(ReaderNow(), BoxNow(), socket.pending, uuid in server.sessions, closed, received, readFailed)
    }

    constructor (uuid: nat, server: CServer)
      requires uuid !in server.sessions
      ensures Valid() && this.server == server && this.uuid == uuid
      ensures fresh(socket) && fresh(data) && fresh(recvHead) && fresh(recvHead.data) && recvMsg == null
      ensures View() == EchoSpec.STARTED.(pending := 0, registered := false)
    {
      this.uuid, this.server := uuid, server;
      socket := new Socket();
      data := new Byte[MAX_LENGTH](_ => 0);
      recvHead := new MsgNode.Empty(HEAD_LENGTH);
      recvMsg, headParsed, sendQue, closed := null, false, [], false;
      verdict, log, received, readFailed := Reading, EMPTY.log, [], false;
    }

    /** Zero the receive buffer and ask for the next bytes. */
    method Start()
      requires Valid()
      modifies socket`pending, data
      ensures Valid()
      ensures View() == old(View()).(pending := old(socket.pending) + 1)
      ensures forall i :: 0 <= i < data.Length ==> data[i] == 0
    {
      forall i | 0 <= i < data.Length {
        data[i] := 0;
      }
      socket.AsyncReadSome();
    }

    method Send(msg: array<Byte>, maxLength: nat)
      requires Safe()
      requires maxLength <= msg.Length && maxLength <= MAX_LENGTH
      modifies `sendQue, `log, socket`writes
      ensures Safe()
      ensures BoxNow() == old(BoxNow()).Send(Frame(Big, old(msg[..maxLength])))
    {
      hide Frame, EncodeShort;
      ghost var f := Frame(Big, msg[..maxLength]);
      var size := |sendQue|;
      log := log.(offered := log.offered + [f]);
      if size > MAX_SENDQUE {
        return;
      }
      var node := new MsgNode.FromMessage(Big, msg, maxLength);
      sendQue := sendQue + [node];
      log := log.(accepted := log.accepted + [f]);
      if size > 0 {
        return;
      }
      socket.AsyncWrite(sendQue[0]);
    }

    method Close()
      modifies `closed
      ensures closed
    {
      closed := true;
    }

    /** The oldest write went out whole: pop its node and write the next one, if any. */
    method PopAndWriteNext()
      requires Safe() && socket.writes != []
      modifies `sendQue, `log, socket`writes
      ensures Safe()
      ensures BoxNow() == old(BoxNow()).Wrote()
    {
      ghost var b := BoxNow();
      socket.writes := socket.writes[1..];
      log := log.(completed := log.completed + [b.queue[0]], wire := log.wire + b.writes[0]);
      sendQue := sendQue[1..];
      if sendQue != [] {
        socket.AsyncWrite(sendQue[0]);
      }
    }

    /** The oldest write failed after `sent` bytes; its node stays at the front of the queue. */
    method EndWrite(ghost sent: nat)
      requires Safe() && socket.writes != [] && sent <= |socket.writes[0].frame|
      modifies `log, socket`writes
      ensures Safe()
      ensures BoxNow() == old(BoxNow()).WriteFailed(sent)
    {
      log := log.(wire := log.wire + BoxNow().writes[0][..sent], failed := true, cut := sent);
      socket.writes := socket.writes[1..];
    }

    /** Runs when the oldest write ends; on error `sent` bytes of it had gone out. */
    method HandleWrite(error: bool, ghost sent: nat)
      requires Valid() && socket.writes != []
      requires error ==> sent <= |socket.writes[0].frame|
      modifies `sendQue, `log, `closed, socket`writes, server`sessions
      ensures Valid()
      ensures View() == if error then old(View()).WriteFailed(sent) else old(View()).Wrote()
      ensures server.sessions == if error then old(server.sessions) - {uuid} else old(server.sessions)
    {
      hide Contents, SentNodesOk, ReaderNow, Outbox.Wrote, Outbox.WriteFailed;
      if !error {
        PopAndWriteNext();
      } else {
        EndWrite(sent);
        Close();
        server.RemoveSession(uuid);
      }
    }

    /** A body is complete: terminate it, echo it, and get ready for the next header. */
    method FinishMessage()
      requires Safe() && recvMsg != null && recvMsg.totalLen <= MAX_LENGTH
      requires verdict.Reading?
      modifies `sendQue, `log, `headParsed, socket`writes, recvHead, recvHead.data, recvMsg.data
      ensures Valid() && recvMsg == old(recvMsg) && recvMsg.data[recvMsg.totalLen] == 0
      ensures ReaderNow() == Head([])
      ensures BoxNow() == old(BoxNow()).Send(Frame(Big, old(recvMsg.data[..recvMsg.totalLen])))
    {
      recvMsg.data[recvMsg.totalLen] := 0;
      assert recvMsg.data[..recvMsg.totalLen] == old(recvMsg.data[..recvMsg.totalLen]);
      Send(recvMsg.data, recvMsg.totalLen);
      headParsed := false;
      recvHead.Clear();
    }

    /** What is left to do in a read callback equals what `goal` still asks for. */
    ghost predicate Heading(rest: Octets, goal: EchoSpec.Session)
      requires ReaderValid()
      reads `recvMsg, `headParsed, `verdict, `sendQue, `log, socket`writes, recvHead, recvHead.data
      reads if recvMsg != null then {recvMsg, recvMsg.data} else {}
    {
      var f := Feed(Big, ReaderNow(), rest);
      goal.reader == f.rest && goal.box == BoxNow().SendAll(Frames(Big, f.msgs))
    }

    /** `memcpy` from the receive buffer to the end of the body node. */
    method FillMsg(start: nat, count: nat)
      requires Safe() && recvMsg != null
      requires start + count <= MAX_LENGTH && recvMsg.curLen + count <= recvMsg.totalLen
      modifies recvMsg, recvMsg.data
      ensures Safe() && recvMsg.curLen == old(recvMsg.curLen) + count
      ensures recvMsg.data[..recvMsg.curLen] == old(recvMsg.data[..recvMsg.curLen]) + data[start..start + count]
    {
      recvMsg.Append(data, start, count);
    }

    method NewMsg(dataLen: nat)
      requires Safe() && dataLen <= MAX_LENGTH
      modifies `recvMsg
      ensures Safe() && recvMsg != null && fresh(recvMsg) && fresh(recvMsg.data)
      ensures recvMsg.totalLen == dataLen && recvMsg.curLen == 0
    {
      recvMsg := new MsgNode.Empty(dataLen);
    }

    /** `memcpy` from the receive buffer to the end of the header node; its count is not advanced. */
    method FillHead(start: nat, count: nat)
      requires Safe()
      requires start + count <= MAX_LENGTH && recvHead.curLen + count <= HEAD_LENGTH
      modifies recvHead.data
      ensures Safe()
      ensures recvHead.data[..recvHead.curLen + count]
           == old(recvHead.data[..recvHead.curLen]) + data[start..start + count]
    {
      CopyBytes(recvHead.data, recvHead.curLen, data, start, count);
      var end := recvHead.curLen + count;
      assert recvHead.data[..end] == recvHead.data[..recvHead.curLen] + recvHead.data[recvHead.curLen..end];
    }

    /** The chunk ends inside a body: keep what there is of it and ask for more. */
    method StoreBody(start: nat, count: nat)
      requires Safe() && verdict.Reading? && recvMsg != null && recvMsg.totalLen <= MAX_LENGTH
      requires start + count <= MAX_LENGTH && recvMsg.curLen + count < recvMsg.totalLen
      modifies `headParsed, recvMsg, recvMsg.data, socket`pending, data
      ensures Valid() && socket.pending == old(socket.pending) + 1
      ensures ReaderNow()
           == Body(recvMsg.totalLen, old(recvMsg.data[..recvMsg.curLen]) + old(data[start..start + count]))
    {
      FillMsg(start, count);
      headParsed := true;
      Start();
    }

    /** The chunk ends inside a header. */
    method StoreHead(start: nat, count: nat)
      requires Valid() && verdict.Reading? && !headParsed
      requires start + count <= MAX_LENGTH && recvHead.curLen + count < HEAD_LENGTH
      modifies recvHead, recvHead.data, socket`pending, data
      ensures Valid() && socket.pending == old(socket.pending) + 1
      ensures ReaderNow() == Head(old(recvHead.data[..recvHead.curLen]) + old(data[start..start + count]))
    {
      FillHead(start, count);
      recvHead.curLen := recvHead.curLen + count;
      Start();
    }

    /** Complete the header from the chunk and decode the length it announces. */
    method ReadLength(start: nat, headRemain: nat) returns (dataLen: int)
      requires Valid() && !headParsed
      requires headRemain == HEAD_LENGTH - recvHead.curLen && start + headRemain <= MAX_LENGTH
      modifies recvHead.data
      ensures Valid()
      ensures var h := old(recvHead.data[..recvHead.curLen]) + data[start..start + headRemain];
              dataLen == DecodeShort(Big, h[0], h[1])
    {
      hide DecodeShort;
      FillHead(start, headRemain);
      assert recvHead.data[..HEAD_LENGTH][0] == recvHead.data[0] && recvHead.data[..HEAD_LENGTH][1] == recvHead.data[1];
      dataLen := DecodeShort(Big, recvHead.data[0], recvHead.data[1]);
    }

    lemma SendNothing(b: Outbox)
      ensures b.SendAll(Frames(Big, [])) == b
    {
    }

    /**
     * The callback is over with the state `goal` asks for, and a read armed if it is to go on;
     * `pending` and `sessions` are the reads armed and the map before.
     */
    ghost predicate Arrived(goal: EchoSpec.Session, pending: nat, sessions: map<nat, CSession>)
      requires ReaderValid()
      reads this, socket, server`sessions, recvHead, recvHead.data
      reads if recvMsg != null then {recvMsg, recvMsg.data} else {}
    {
      && goal.reader == ReaderNow() && goal.box == BoxNow()
      && socket.pending == pending + (if goal.reader.Live() then 1 else 0)
      && server.sessions == (if goal.reader.Rejected? then sessions - {uuid} else sessions)
    }

    /** The callback goes on with the chunk between `copyLen` and `end`; nothing has been armed or removed. */
    ghost predicate Underway(copyLen: nat, end: nat, goal: EchoSpec.Session, pending: nat, sessions: map<nat, CSession>)
      reads this, socket, server`sessions, data, recvHead, recvHead.data
      reads if recvMsg != null then {recvMsg, recvMsg.data} else {}
      reads set n | n in sendQue :: n.data, set n | n in socket.writes :: n.data
    {
      && Valid() && verdict.Reading?
      && copyLen <= end <= MAX_LENGTH && Heading(data[copyLen..end], goal)
      && socket.pending == pending && server.sessions == sessions
    }

    /** A frame is complete and its message sent: go on with the rest of the chunk, or rearm. */
    method NextFrame(copyLen: nat, end: nat, ghost goal: EchoSpec.Session) returns (done: bool)
      requires Safe() && recvMsg != null && recvMsg.curLen == recvMsg.totalLen <= MAX_LENGTH
      requires verdict.Reading? && copyLen <= end <= MAX_LENGTH
      requires var g := Feed(Big, Head([]), data[copyLen..end]);
               && goal.reader == g.rest
               && goal.box == BoxNow().SendAll(Frames(Big, [recvMsg.data[..recvMsg.curLen]] + g.msgs))
      modifies `sendQue, `log, `headParsed, socket, data, recvHead, recvHead.data, recvMsg.data
      ensures Valid() && recvMsg == old(recvMsg) && done == (copyLen == end)
      ensures done ==> Arrived(goal, old(socket.pending), old(server.sessions))
      ensures !done ==>
                && data[..] == old(data[..]) && socket.pending == old(socket.pending)
                && Heading(data[copyLen..end], goal)
    {
      ghost var m := recvMsg.data[..recvMsg.curLen];
      ghost var g := Feed(Big, Head([]), data[copyLen..end]);
      assert Frames(Big, [m] + g.msgs) == [Frame(Big, m)] + Frames(Big, g.msgs);
      FeedHead(Big, [], []);
      hide Feed, Frame, SentNodesOk;
      FinishMessage();
      done := end - copyLen <= 0;
      if done {
        Start();
      }
    }

    /** What `goal` asks for when the chunk stays inside a body. */
    lemma BodyKept(copyLen: nat, end: nat, goal: EchoSpec.Session)
      requires Valid() && verdict.Reading? && headParsed && copyLen <= end <= MAX_LENGTH
      requires end - copyLen < recvMsg.totalLen - recvMsg.curLen
      requires Heading(data[copyLen..end], goal)
      ensures goal.reader == Body(recvMsg.totalLen, recvMsg.data[..recvMsg.curLen] + data[copyLen..end])
      ensures goal.box == BoxNow()
    {
      FeedBody(Big, recvMsg.totalLen, recvMsg.data[..recvMsg.curLen], data[copyLen..end]);
      SendNothing(BoxNow());
    }

    /** What `goal` asks for when the chunk completes the body at `mid`. */
    lemma BodyFinished(copyLen: nat, mid: nat, end: nat, goal: EchoSpec.Session)
      requires Valid() && verdict.Reading? && headParsed && copyLen <= mid <= end <= MAX_LENGTH
      requires mid - copyLen == recvMsg.totalLen - recvMsg.curLen
      requires Heading(data[copyLen..end], goal)
      ensures var g := Feed(Big, Head([]), data[mid..end]);
              var m := recvMsg.data[..recvMsg.curLen] + data[copyLen..mid];
              goal.reader == g.rest && goal.box == BoxNow().SendAll(Frames(Big, [m] + g.msgs))
    {
      hide Feed, Frames, Outbox.SendAll, SentNodesOk, BoxNow;
      FeedBody(Big, recvMsg.totalLen, recvMsg.data[..recvMsg.curLen], data[copyLen..end]);
      Slices(data, copyLen, mid, end);
    }

    /** What `goal` asks for when the chunk stays inside a header. */
    lemma HeadKept(copyLen: nat, end: nat, goal: EchoSpec.Session)
      requires Valid() && verdict.Reading? && !headParsed && copyLen <= end <= MAX_LENGTH
      requires end - copyLen + recvHead.curLen < HEAD_LENGTH
      requires Heading(data[copyLen..end], goal)
      ensures goal.reader == Head(recvHead.data[..recvHead.curLen] + data[copyLen..end])
      ensures goal.box == BoxNow()
    {
      FeedHead(Big, recvHead.data[..recvHead.curLen], data[copyLen..end]);
      SendNothing(BoxNow());
    }

    /** What `goal` asks for once a header is complete and the chunk goes on from `copyLen`. */
    ghost predicate Awaiting(dataLen: int, copyLen: nat, end: nat, goal: EchoSpec.Session)
      requires copyLen <= end <= data.Length
      reads data, `sendQue, `log, socket`writes
    {
      var f := Announced(Big, dataLen, data[copyLen..end]);
      goal.reader == f.rest && goal.box == BoxNow().SendAll(Frames(Big, f.msgs))
    }

    /** What `goal` asks for when the chunk completes the header at `mid`. */
    lemma HeadFinished(copyLen: nat, mid: nat, end: nat, goal: EchoSpec.Session)
      requires Valid() && verdict.Reading? && !headParsed && copyLen <= mid <= end <= MAX_LENGTH
      requires mid - copyLen + recvHead.curLen == HEAD_LENGTH
      requires Heading(data[copyLen..end], goal)
      ensures var h := recvHead.data[..recvHead.curLen] + data[copyLen..mid];
              Awaiting(DecodeShort(Big, h[0], h[1]), mid, end, goal)
    {
      hide Feed, Frames, Outbox.SendAll, SentNodesOk, BoxNow, DecodeShort, Announced;
      FeedHead(Big, recvHead.data[..recvHead.curLen], data[copyLen..end]);
      Slices(data, copyLen, mid, end);
    }

    /** What `goal` asks for when no body is complete yet, or none ever will be. */
    lemma NoneComplete(dataLen: int, copyLen: nat, end: nat, goal: EchoSpec.Session)
      requires copyLen <= end <= data.Length && Awaiting(dataLen, copyLen, end, goal)
      requires dataLen < 0 || dataLen > MAX_LENGTH || end - copyLen < dataLen
      ensures goal.box == BoxNow()
      ensures goal.reader == if dataLen > MAX_LENGTH then Rejected else if dataLen < 0 then Faulted
                             else Body(dataLen, data[copyLen..end])
    {
      SendNothing(BoxNow());
    }

    /** What `goal` asks for when the first body is complete at `mid`. */
    lemma FirstComplete(copyLen: nat, mid: nat, end: nat, goal: EchoSpec.Session)
      requires copyLen <= mid <= end <= data.Length && mid - copyLen <= MAX_LENGTH
      requires Awaiting(mid - copyLen, copyLen, end, goal)
      ensures var g := Feed(Big, Head([]), data[mid..end]);
              goal.reader == g.rest && goal.box == BoxNow().SendAll(Frames(Big, [data[copyLen..mid]] + g.msgs))
    {
      hide Feed, Frames, Outbox.SendAll, BoxNow;
      Slices(data, copyLen, mid, end);
    }

    /** Store what there is of a header that the chunk does not complete. */
    method KeepHead(copyLen: nat, end: nat, ghost goal: EchoSpec.Session)
      requires Valid() && verdict.Reading? && !headParsed && copyLen <= end <= MAX_LENGTH
      requires end - copyLen + recvHead.curLen < HEAD_LENGTH
      requires Heading(data[copyLen..end], goal)
      modifies recvHead, recvHead.data, socket`pending, data
      ensures Valid() && Arrived(goal, old(socket.pending), old(server.sessions))
    {
      hide Feed, Frames, Heading, Outbox.SendAll, Contents, SentNodesOk;
      HeadKept(copyLen, end, goal);
      StoreHead(copyLen, end - copyLen);
    }

    /** The chunk completes the header; judge the length it announces. */
    method FinishHead(copyLen: nat, mid: nat, end: nat, ghost goal: EchoSpec.Session)
      returns (done: bool, copied: nat)
      requires Valid() && verdict.Reading? && !headParsed && copyLen <= mid <= end <= MAX_LENGTH
      requires mid - copyLen == HEAD_LENGTH - recvHead.curLen
      requires Heading(data[copyLen..end], goal)
      modifies `recvMsg, `headParsed, `sendQue, `verdict, `log
      modifies socket, server`sessions, data, recvHead, recvHead.data
      ensures recvMsg == old(recvMsg) || (recvMsg != null && fresh(recvMsg) && fresh(recvMsg.data))
      ensures Valid()
      ensures done ==> Arrived(goal, old(socket.pending), old(server.sessions))
      ensures !done ==>
                && mid <= copied < end
                && Underway(copied, end, goal, old(socket.pending), old(server.sessions))
    {
      HeadFinished(copyLen, mid, end, goal);
      hide Feed, Frames, Heading, Awaiting, Outbox.SendAll, DecodeShort, BoxNow, SentNodesOk;
      var dataLen := ReadLength(copyLen, mid - copyLen);
      done, copied := JudgeLength(dataLen, mid, end, goal);
    }

    method JudgeLength(dataLen: int, copyLen: nat, end: nat, ghost goal: EchoSpec.Session)
      returns (done: bool, copied: nat)
      requires Valid() && verdict.Reading? && !headParsed && copyLen <= end <= MAX_LENGTH
      requires Awaiting(dataLen, copyLen, end, goal)
      modifies `recvMsg, `headParsed, `sendQue, `verdict, `log
      modifies socket, server`sessions, data, recvHead, recvHead.data
      ensures recvMsg == old(recvMsg) || (recvMsg != null && fresh(recvMsg) && fresh(recvMsg.data))
      ensures Valid()
      ensures done ==> Arrived(goal, old(socket.pending), old(server.sessions))
      ensures !done ==>
                && copyLen <= copied < end
                && Underway(copied, end, goal, old(socket.pending), old(server.sessions))
    {
      hide Feed, Frames, Heading, Awaiting, Outbox.SendAll, BoxNow, SentNodesOk;
      if dataLen < 0 || dataLen > MAX_LENGTH {
        NoneComplete(dataLen, copyLen, end, goal);
        Refuse(dataLen);
        done, copied := true, copyLen;
      } else {
        done, copied := FirstBody(dataLen, copyLen, end, goal);
      }
    }

    /**
     * An oversized length takes the session off the map and ends reading. With a negative one the
     * body node cannot be built, and no behaviour is defined from there on.
     */
    method Refuse(dataLen: int)
      requires Valid() && verdict.Reading? && (dataLen < 0 || dataLen > MAX_LENGTH)
      modifies `verdict, server`sessions
      ensures Valid()
      ensures ReaderNow() == if dataLen > MAX_LENGTH then Rejected else Faulted
      ensures server.sessions == if dataLen > MAX_LENGTH then old(server.sessions) - {uuid} else old(server.sessions)
    {
      if dataLen > MAX_LENGTH {
        server.RemoveSession(uuid);
      }
      verdict := if dataLen > MAX_LENGTH then Oversized else Negative;
    }

    /** Start a body with the rest of the chunk in which its header ended. */
    method FirstBody(dataLen: nat, copyLen: nat, end: nat, ghost goal: EchoSpec.Session)
      returns (done: bool, copied: nat)
      requires Valid() && verdict.Reading? && !headParsed
      requires dataLen <= MAX_LENGTH && copyLen <= end <= MAX_LENGTH
      requires Awaiting(dataLen, copyLen, end, goal)
      modifies `recvMsg, `headParsed, `sendQue, `log, socket, data, recvHead, recvHead.data
      ensures recvMsg != null && fresh(recvMsg) && fresh(recvMsg.data)
      ensures Valid()
      ensures done ==> Arrived(goal, old(socket.pending), old(server.sessions))
      ensures !done ==>
                && copyLen <= copied < end
                && socket.pending == old(socket.pending)
                && Heading(data[copied..end], goal)
    {
      hide Feed, Frames, Outbox.SendAll, Contents, SentNodesOk, Awaiting;
      if end - copyLen < dataLen {
        NoneComplete(dataLen, copyLen, end, goal);
      } else {
        FirstComplete(copyLen, copyLen + dataLen, end, goal);
      }
      NewMsg(dataLen);
      if end - copyLen < dataLen {
        StoreBody(copyLen, end - copyLen);
        return true, end;
      }
      FillMsg(copyLen, dataLen);
      copied := copyLen + dataLen;
      assert recvMsg.data[..recvMsg.curLen] == data[copyLen..copied];
      done := NextFrame(copied, end, goal);
    }

    /** The chunk does not complete a body begun in an earlier chunk. */
    method KeepBody(copyLen: nat, end: nat, ghost goal: EchoSpec.Session)
      requires Valid() && verdict.Reading? && headParsed && copyLen <= end <= MAX_LENGTH
      requires end - copyLen < recvMsg.totalLen - recvMsg.curLen
      requires Heading(data[copyLen..end], goal)
      modifies `headParsed, recvMsg, recvMsg.data, socket`pending, data
      ensures Valid() && Arrived(goal, old(socket.pending), old(server.sessions))
    {
      hide Feed, Frames, Heading, Outbox.SendAll, Contents, SentNodesOk;
      BodyKept(copyLen, end, goal);
      StoreBody(copyLen, end - copyLen);
    }

    /** The chunk completes it. */
    method FinishBody(copyLen: nat, mid: nat, end: nat, ghost goal: EchoSpec.Session) returns (done: bool)
      requires Valid() && verdict.Reading? && headParsed && copyLen <= mid <= end <= MAX_LENGTH
      requires mid - copyLen == recvMsg.totalLen - recvMsg.curLen
      requires Heading(data[copyLen..end], goal)
      modifies `headParsed, `sendQue, `log, socket, data, recvHead, recvHead.data, recvMsg, recvMsg.data
      ensures Valid() && recvMsg == old(recvMsg) && done == (mid == end)
      ensures done ==> Arrived(goal, old(socket.pending), old(server.sessions))
      ensures !done ==> socket.pending == old(socket.pending) && Heading(data[mid..end], goal)
    {
      hide Feed, Frames, Heading, Outbox.SendAll, Contents, SentNodesOk;
      BodyFinished(copyLen, mid, end, goal);
      FillMsg(copyLen, mid - copyLen);
      done := NextFrame(mid, end, goal);
    }

    /** One turn of the loop, over what the chunk holds between `copyLen` and `end`. */
    method Turn(copyLen: nat, end: nat, ghost goal: EchoSpec.Session, ghost pending: nat,
                ghost sessions: map<nat, CSession>)
      returns (done: bool, copied: nat)
      requires copyLen < end && Underway(copyLen, end, goal, pending, sessions)
      modifies `recvMsg, `headParsed, `sendQue, `verdict, `log
      modifies socket, server`sessions, data, recvHead, recvHead.data
      modifies if recvMsg != null then {recvMsg, recvMsg.data} else {}
      ensures recvMsg == old(recvMsg) || (recvMsg != null && fresh(recvMsg) && fresh(recvMsg.data))
      ensures done ==> Valid() && Arrived(goal, pending, sessions)
      ensures !done ==> copyLen < copied < end && Underway(copied, end, goal, pending, sessions)
    {
      hide Feed, Heading, ReaderNow, BoxNow, Safe;
      var bytes := end - copyLen;
      if !headParsed {
        if bytes + recvHead.curLen < HEAD_LENGTH {
          KeepHead(copyLen, end, goal);
          done, copied := true, end;
        } else {
          var headRemain := HEAD_LENGTH - recvHead.curLen;
          done, copied := FinishHead(copyLen, copyLen + headRemain, end, goal);
        }
      } else {
        var remainMsg := recvMsg.totalLen - recvMsg.curLen;
        if bytes < remainMsg {
          KeepBody(copyLen, end, goal);
          done, copied := true, end;
        } else {
          copied := copyLen + remainMsg;
          done := FinishBody(copyLen, copied, end, goal);
        }
      }
    }

    /**
     * The loop of the read callback over the first `count` bytes of `data`. `copyLen` and `bytes`
     * are its two cursors: what has been moved and what is left of the chunk.
     */
    method ParseChunk(count: nat, ghost goal: EchoSpec.Session, ghost pending: nat,
                      ghost sessions: map<nat, CSession>)
      requires Underway(0, count, goal, pending, sessions)
      modifies `recvMsg, `headParsed, `sendQue, `verdict, `log
      modifies socket, server`sessions, data, recvHead, recvHead.data
      modifies if recvMsg != null then {recvMsg, recvMsg.data} else {}
      ensures Valid()
      ensures count > 0 ==> Arrived(goal, pending, sessions)
      ensures count == 0 ==> Underway(0, 0, goal, pending, sessions)
    {
      hide Underway, Arrived, Valid;
      var copyLen: nat, bytes: nat := 0, count;
      while bytes > 0
        invariant copyLen + bytes == count
        invariant count > 0 ==> bytes > 0
        invariant Underway(copyLen, count, goal, pending, sessions)
        invariant recvMsg == old(recvMsg) || (recvMsg != null && fresh(recvMsg) && fresh(recvMsg.data))
      {
        var done;
        done, copyLen := Turn(copyLen, copyLen + bytes, goal, pending, sessions);
        if done {
          return;
        }
        bytes := count - copyLen;
      }
      UnderwayValid(copyLen, count, goal, pending, sessions);
    }

    lemma UnderwayValid(copyLen: nat, end: nat, goal: EchoSpec.Session, pending: nat, sessions: map<nat, CSession>)
      requires Underway(copyLen, end, goal, pending, sessions)
      ensures Valid()
    {
    }

    lemma HeadingNothing(goal: EchoSpec.Session)
      requires Valid() && verdict.Reading? && Heading([], goal)
      ensures goal.reader == ReaderNow() && goal.reader.Live() && goal.box == BoxNow()
    {
      SendNothing(BoxNow());
      var r := ReaderNow();
      if r.Head? {
        FeedHead(Big, r.part, []);
        assert r.part + [] == r.part;
      } else {
        FeedBody(Big, r.need, r.part, []);
        assert r.part + [] == r.part;
      }
    }

    /** A read that brought `count` bytes to the start of `data`. */
    method TakeChunk(count: nat)
      requires Valid() && socket.pending > 0 && count <= MAX_LENGTH && verdict.Reading?
      modifies `recvMsg, `headParsed, `sendQue, `verdict, `log, `received
      modifies socket, server`sessions, data, recvHead, recvHead.data
      modifies if recvMsg != null then {recvMsg, recvMsg.data} else {}
      ensures Valid()
      ensures View() == old(View()).GotBytes(old(data[..count]))
      ensures server.sessions == if ReaderNow().Rejected? then old(server.sessions) - {uuid} else old(server.sessions)
    {
      hide Feed, Frames, Outbox.SendAll, Contents, SentNodesOk, EchoSpec.Session.GotBytes;
      ghost var goal := View().GotBytes(data[..count]);
      EchoSpec.GotBytesShape(View(), data[..count]);
      socket.pending := socket.pending - 1;
      received := received + data[..count];
      assert data[0..count] == data[..count];
      ParseChunk(count, goal, socket.pending, server.sessions);
      if count == 0 {
        assert data[0..0] == [];
        HeadingNothing(goal);
      }
    }

    /** The callback that runs when a read ends, on error or with `count` bytes at the start of `data`. */
    method HandleRead(error: bool, count: nat)
      requires Valid() && socket.pending > 0 && count <= MAX_LENGTH && verdict.Reading?
      modifies this, socket, server`sessions, data, recvHead, recvHead.data
      modifies if recvMsg != null then {recvMsg, recvMsg.data} else {}
      ensures Valid()
      ensures View() == if error then old(View()).ReadFailed() else old(View()).GotBytes(old(data[..count]))
      ensures server.sessions ==
              if error || ReaderNow().Rejected? then old(server.sessions) - {uuid} else old(server.sessions)
    {
      if !error {
        TakeChunk(count);
      } else {
        socket.pending := socket.pending - 1;
        readFailed := true;
        Close();
        server.RemoveSession(uuid);
      }
    }
  }
}
