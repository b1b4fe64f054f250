/** The S12 session's own objects: the send node, the two critical sections, the reading loop. */
module CoroutineSession {
  import opened Bytes
  import opened WriteToken
  import opened CoroutineFrames

  class SendNode {
    const data: array<Byte>
    const totalLen: nat
    const msgId: int
    ghost const frame: Octets

    ghost predicate Carries()
      reads data
    {
      data.Length == totalLen + 1 && data[..totalLen] == frame
    }

    constructor (text: Octets, id: int)
      requires Sendable(Message(id, text))
      ensures Carries() && fresh(data) && frame == Encode(Message(id, text))
      ensures msgId == id && totalLen == |text| + HEAD_TOTAL_LENGTH && data[totalLen] == 0
    {
      frame := Encode(Message(id, text));
      msgId := id;
      totalLen := |text| + HEAD_TOTAL_LENGTH;
      var a := new Byte[|text| + HEAD_TOTAL_LENGTH + 1](_ => 0);
      var idNet, lenNet := EncodeShort(Big, id), EncodeShort(Big, |text|);
      a[0], a[1], a[HEAD_ID_LENGTH], a[HEAD_ID_LENGTH + 1] := idNet[0], idNet[1], lenNet[0], lenNet[1];
      forall i | 0 <= i < |text| {
        a[HEAD_TOTAL_LENGTH + i] := text[i];
      }
      assert a[..HEAD_TOTAL_LENGTH] == idNet + lenNet;
      assert a[HEAD_TOTAL_LENGTH..HEAD_TOTAL_LENGTH + |text|] == text;
      assert a[..HEAD_TOTAL_LENGTH + |text|] == a[..HEAD_TOTAL_LENGTH] + text;
      data := a;
    }
  }

  class Session {
    var sendQue: seq<SendNode>

    ghost predicate Valid()
      reads this, set n | n in sendQue :: n.data
    {
      forall n :: n in sendQue ==> n.Carries()
    }

    ghost function Frames(): seq<Octets>
      reads this
    {
      seq(|sendQue|, i requires 0 <= i < |sendQue| reads this => sendQue[i].frame)
    }

    /**
     * `send` between lock and unlock, for the thread `t` of the protocol state `w`: `next` is the
     * node that the thread will write once it has unlocked.
     */
    method SendLocked(text: Octets, id: int, ghost w: Writer, ghost t: Tid) returns (next: SendNode?)
      requires Valid() && Sendable(Message(id, text))
      requires w.queue == Frames()
      modifies this
      ensures Valid()
      ensures var v := w.LeaveSend(t, Encode(Message(id, text)));
              && Frames() == v.queue
              && (next != null <==> t in v.threads)
              && (next != null ==> sendQue != [] && next == sendQue[0] && v.threads[t] == Gap(next.frame))
    {
      var size := |sendQue|;
      if size > MAX_SENDQUE_SIZE {
        return null;
      }
      var node := new SendNode(text, id);
      sendQue := sendQue + [node];
      assert Frames() == w.queue + [node.frame];
      if size > 0 {
        return null;
      }
      next := sendQue[0];
    }

    /** `write_callback_` between lock and unlock. */
    method PopLocked(ghost w: Writer, ghost t: Tid) returns (next: SendNode?)
      requires Valid() && sendQue != []
      requires w.queue == Frames()
      modifies this
      ensures Valid()
      ensures var v := w.LeavePop(t);
              && Frames() == v.queue
              && (next != null <==> t in v.threads)
              && (next != null ==> sendQue != [] && next == sendQue[0] && v.threads[t] == Gap(next.frame))
    {
      sendQue := sendQue[1..];
      assert Frames() == w.queue[1..];
      next := if sendQue != [] then sendQue[0] else null;
    }
  }

  /** An exact read: the first bytes of the stream fill the start of the buffer. */
  method Fill(buffer: array<Byte>, bytes: Octets)
    requires |bytes| <= buffer.Length
    modifies buffer
    ensures buffer[..|bytes|] == bytes
  {
    forall i | 0 <= i < |bytes| {
      buffer[i] := bytes[i];
    }
  }

  /** Read and check a header: the id, and the length unless the session is to end itself. */
  method ReadHeader(head: array<Byte>, bytes: Octets) returns (id: int, len: int, wait: Wait)
    requires |bytes| == HEAD_TOTAL_LENGTH <= head.Length
    modifies head
    ensures wait == AfterHead(bytes)
    ensures wait.Closed? || (wait.Body? && wait.id == id && wait.need == len)
  {
    Fill(head, bytes);
    assert forall k :: 0 <= k < HEAD_TOTAL_LENGTH ==> head[k] == head[..HEAD_TOTAL_LENGTH][k];
    id, len := DecodeShort(Big, head[0], head[1]), 0;
    if id > MAX_MSG_LENGTH {
      return id, len, Closed;
    }
    len := DecodeShort(Big, head[HEAD_ID_LENGTH], head[HEAD_ID_LENGTH + 1]);
    // Below 0 the body node cannot be allocated, which ends the coroutine in its `catch`; at 0 the
    // read of the body returns 0 bytes, which is taken for the end of the peer.
    if len > MAX_MSG_LENGTH || len <= 0 {
      return id, len, Closed;
    }
    wait := Body(id, len);
  }

  /**
   * The coroutine of `start` over the bytes of a peer: what it posts to the logic queue, and what it
   * waits for when the bytes run out or it has left its loop. `closeSeen(k)` is what it finds `b_close_`
   * to be after `k` messages, set by another thread or not; `broken` tells that the connection breaks
   * after these bytes, so that the read outstanding then throws. `closed`: it closed the session and
   * took it off the map itself.
   */
  method ReadLoop(stream: Octets, closeSeen: nat -> bool, broken: bool)
    returns (posted: seq<Message>, wait: Wait, left: Octets, closed: bool)
    ensures posted <= Parse(Head, stream).msgs
    ensures forall k :: 0 <= k < |posted| ==> !closeSeen(k)
    ensures if closeSeen(|posted|) then
              && !closed && wait == Head
              && var p := Parse(Head, left); Parse(Head, stream) == p.(msgs := posted + p.msgs)
            else Parse(Head, stream) == Parsed(posted, wait, left) && closed == (broken || wait.Closed?)
  {
    hide Parse, AfterHead, DecodeShort;
    var head := new Byte[HEAD_TOTAL_LENGTH + 1](_ => 0);
    posted, wait, left, closed := [], Head, stream, false;
    while !closeSeen(|posted|)
      invariant fresh(head) && head.Length == HEAD_TOTAL_LENGTH + 1 && wait == Head && !closed
      invariant forall k :: 0 <= k < |posted| ==> !closeSeen(k)
      invariant var p := Parse(Head, left); Parse(Head, stream) == p.(msgs := posted + p.msgs)
      decreases |left|
    {
      Unfold(Head, left);
      if |left| < HEAD_TOTAL_LENGTH {
        return posted, Head, left, broken;
      }
      var msgId, msgLen;
      msgId, msgLen, wait := ReadHeader(head, left[..HEAD_TOTAL_LENGTH]);
      left := left[HEAD_TOTAL_LENGTH..];
      Unfold(wait, left);
      if wait.Closed? {
        return posted, Closed, left, true;
      }
      var body := new Byte[msgLen + 1](_ => 0);
      if |left| < msgLen {
        return posted, wait, left, broken;
      }
      Fill(body, left[..msgLen]);
      body[msgLen] := 0;
      assert body[..msgLen] == left[..msgLen];
      ghost var m, p := Message(msgId, left[..msgLen]), Parse(Head, left[msgLen..]);
      assert posted + ([m] + p.msgs) == posted + [m] + p.msgs;
      posted := posted + [Message(msgId, body[..msgLen])];
      wait, left := Head, left[msgLen..];
    }
  }
}
