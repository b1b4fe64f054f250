/** The S12 frame, 4 header bytes for id and length and then the body, and the coroutine reader. */
module CoroutineFrames {
  import opened Bytes

  const HEAD_TOTAL_LENGTH := 4
  const HEAD_ID_LENGTH := 2
  const MAX_MSG_LENGTH := 2048

  datatype Message = Message(id: int, data: Octets)

  function Encode(m: Message): Octets
  {
    EncodeShort(Big, m.id) + EncodeShort(Big, |m.data|) + m.data
  }

  function EncodeAll(ms: seq<Message>): Octets
  {
    if ms == [] then [] else Encode(ms[0]) + EncodeAll(ms[1..])
  }

  /**
   * What the coroutine waits for. `Closed`: the id or the length exceeds the limit, or the length is
   * not positive, and the session ends itself.
   */
  datatype Wait = Head | Body(id: int, need: nat) | Closed

  /** The checks on a complete header. A length of 0 makes the next read return 0 bytes. */
  function AfterHead(h: Octets): (w: Wait)
    requires |h| == HEAD_TOTAL_LENGTH
    ensures !w.Head?
  {
    var id, len := DecodeShort(Big, h[0], h[1]), DecodeShort(Big, h[2], h[3]);
    if id > MAX_MSG_LENGTH || len > MAX_MSG_LENGTH || len <= 0 then Closed else Body(id, len)
  }

  /** `left` is what the reads completed so far have not consumed. */
  datatype Parsed = Parsed(msgs: seq<Message>, wait: Wait, left: Octets)

  /** The whole-stream meaning of the reader: each read completes with exactly what it asks for. */
  function Parse(w: Wait, s: Octets): Parsed
    decreases |s|, if w.Body? then 1 else 0
  {
    match w
    case Head =>
      if |s| < HEAD_TOTAL_LENGTH then Parsed([], w, s)
      else Parse(AfterHead(s[..HEAD_TOTAL_LENGTH]), s[HEAD_TOTAL_LENGTH..])
    case Body(id, n) =>
      if |s| < n then Parsed([], w, s)
      else
        var p := Parse(Head, s[n..]);
        p.(msgs := [Message(id, s[..n])] + p.msgs)
    case Closed => Parsed([], w, s)
  }

  /** The number in two bytes of network order, the first byte's high bit being its sign. */
  function Number(b0: Byte, b1: Byte): int {
    if b0 < 128 then 256 * b0 + b1 else 256 * b0 + b1 - 0x1_0000
  }

  /** One message at the front of a stream, by its bytes. Ids may be negative, lengths may not be. */
  lemma NetworkMessage(i0: Byte, i1: Byte, n0: Byte, n1: Byte, t: Octets)
    ensures var id, n := Number(i0, i1), Number(n0, n1);
            var p := Parse(Head, [i0, i1, n0, n1] + t);
            && (id <= 2048 && 0 < n <= 2048 && |t| == n ==> p == Parsed([Message(id, t)], Head, []))
            && (id <= 2048 && 0 < n <= 2048 && |t| < n ==> p == Parsed([], Body(id, n), t))
            && (id > 2048 || n > 2048 || n <= 0 ==> p == Parsed([], Closed, t))
  {
    hide Parse, AfterHead, Number, DecodeShort;
    HeaderBytes(i0, i1, n0, n1);
    var h := [i0, i1, n0, n1];
    assert (h + t)[..HEAD_TOTAL_LENGTH] == h && (h + t)[HEAD_TOTAL_LENGTH..] == t;
    Unfold(Head, h + t);
    Unfold(AfterHead(h), t);
    if |t| == Number(n0, n1) {
      assert t[..|t|] == t && t[|t|..] == [];
      Unfold(Head, []);
      assert [Message(Number(i0, i1), t)] + [] == [Message(Number(i0, i1), t)];
    }
  }

  /** The checks on a header, by its bytes. */
  lemma HeaderBytes(i0: Byte, i1: Byte, n0: Byte, n1: Byte)
    ensures var id, n := Number(i0, i1), Number(n0, n1);
            AfterHead([i0, i1, n0, n1]) == if id > 2048 || n > 2048 || n <= 0 then Closed else Body(id, n)
  {
    ByteOrders(0, i0, i1);
    ByteOrders(0, n0, n1);
    hide DecodeShort;
  }

  /** The bytes written for a message. */
  lemma EncodeBytes(m: Message)
    requires Sendable(m)
    ensures var e := Encode(m);
            && |e| == |m.data| + 4
            && Number(e[0], e[1]) == m.id && Number(e[2], e[3]) == |m.data| && e[4..] == m.data
  {
    ByteOrders(m.id, 0, 0);
    ByteOrders(|m.data|, 0, 0);
  }

  predicate Sendable(m: Message) {
    IsShort(m.id) && |m.data| < 0x8000 - HEAD_TOTAL_LENGTH
  }

  predicate Readable(m: Message) {
    m.id <= MAX_MSG_LENGTH && 0 < |m.data| <= MAX_MSG_LENGTH
  }

  /** One encoded message at the front of a stream: read back if within the limits, else the end. */
  lemma ParseEncoded(m: Message, t: Octets)
    requires Sendable(m)
    ensures var p, q := Parse(Head, Encode(m) + t), Parse(Head, t);
            if Readable(m) then p == q.(msgs := [m] + q.msgs)
            else p.msgs == [] && p.wait == Closed
  {
    var s := Encode(m) + t;
    ShortCodec(Big, m.id, 0, 0);
    ShortCodec(Big, |m.data|, 0, 0);
    assert s[..HEAD_TOTAL_LENGTH] == EncodeShort(Big, m.id) + EncodeShort(Big, |m.data|);
    assert s[HEAD_TOTAL_LENGTH..] == m.data + t;
    if Readable(m) {
      assert AfterHead(s[..HEAD_TOTAL_LENGTH]) == Body(m.id, |m.data|);
      assert (m.data + t)[..|m.data|] == m.data && (m.data + t)[|m.data|..] == t;
    }
  }

  /**
   * The round trip of whole streams: reading back the concatenated frames of a list of messages
   * gives exactly that list if and only if every message is within the reader's limits.
   */
  lemma {:induction false} RoundTrip(ms: seq<Message>)
    requires forall i :: 0 <= i < |ms| ==> Sendable(ms[i])
    ensures Parse(Head, EncodeAll(ms)).msgs == ms <==> forall i :: 0 <= i < |ms| ==> Readable(ms[i])
    ensures Parse(Head, EncodeAll(ms)).msgs == ms ==> Parse(Head, EncodeAll(ms)) == Parsed(ms, Head, [])
    decreases |ms|
  {
    if ms != [] {
      ParseEncoded(ms[0], EncodeAll(ms[1..]));
      RoundTrip(ms[1..]);
      var rest := Parse(Head, EncodeAll(ms[1..])).msgs;
      assert ms == [ms[0]] + ms[1..];
      assert [ms[0]] + rest == ms <==> rest == ms[1..] by {
        assert rest == ([ms[0]] + rest)[1..];
      }
      assert forall i :: 0 < i < |ms| ==> ms[i] == ms[1..][i - 1];
      if Readable(ms[0]) && forall i :: 0 <= i < |ms[1..]| ==> Readable(ms[1..][i]) {
        assert forall i :: 0 <= i < |ms| ==> Readable(ms[i]);
      }
      if forall i :: 0 <= i < |ms| ==> Readable(ms[i]) {
        assert forall i :: 0 <= i < |ms[1..]| ==> ms[1..][i] == ms[i + 1];
      }
    }
  }

  lemma Unfold(w: Wait, s: Octets)
    ensures Parse(w, s) ==
            match w
            case Head =>
              if |s| < HEAD_TOTAL_LENGTH then Parsed([], w, s)
              else Parse(AfterHead(s[..HEAD_TOTAL_LENGTH]), s[HEAD_TOTAL_LENGTH..])
            case Body(id, n) =>
              if |s| < n then Parsed([], w, s)
              else Parse(Head, s[n..]).(msgs := [Message(id, s[..n])] + Parse(Head, s[n..]).msgs)
            case Closed => Parsed([], w, s)
  {
  }

  /** Reading on with more bytes is reading the longer stream. */
  lemma {:induction false} ParseSnoc(w: Wait, s: Octets, t: Octets)
    ensures var p := Parse(w, s);
            var q := Parse(p.wait, p.left + t);
            Parse(w, s + t) == q.(msgs := p.msgs + q.msgs)
    decreases |s|, if w.Body? then 1 else 0
  {
    Unfold(w, s);
    Unfold(w, s + t);
    hide Parse, AfterHead;
    match w
    case Head =>
      if |s| >= HEAD_TOTAL_LENGTH {
        assert (s + t)[..HEAD_TOTAL_LENGTH] == s[..HEAD_TOTAL_LENGTH];
        assert (s + t)[HEAD_TOTAL_LENGTH..] == s[HEAD_TOTAL_LENGTH..] + t;
        ParseSnoc(AfterHead(s[..HEAD_TOTAL_LENGTH]), s[HEAD_TOTAL_LENGTH..], t);
      }
    case Body(id, n) =>
      if |s| >= n {
        assert (s + t)[..n] == s[..n] && (s + t)[n..] == s[n..] + t;
        ParseSnoc(Head, s[n..], t);
      }
    case Closed =>
  }

  /** What is read of the first bytes of a stream comes first in what is read of the whole. */
  lemma ParsePrefix(s: Octets, t: Octets)
    requires s <= t
    ensures Parse(Head, s).msgs <= Parse(Head, t).msgs
  {
    assert t == s + t[|s|..];
    ParseSnoc(Head, s, t[|s|..]);
  }

  /** Whatever is sent, what is read back comes first in it. */
  lemma {:induction false} ReadsTheFirst(ms: seq<Message>)
    requires forall i :: 0 <= i < |ms| ==> Sendable(ms[i])
    ensures Parse(Head, EncodeAll(ms)).msgs <= ms
    decreases |ms|
  {
    if ms != [] {
      ParseEncoded(ms[0], EncodeAll(ms[1..]));
      ReadsTheFirst(ms[1..]);
    }
  }

  lemma {:induction false} EncodeAllSnoc(ms: seq<Message>, m: Message)
    ensures EncodeAll(ms + [m]) == EncodeAll(ms) + Encode(m)
    decreases |ms|
  {
    if ms == [] {
      assert ms + [m] == [m] && [m][1..] == [];
      assert Encode(m) + [] == Encode(m) == [] + Encode(m);
    } else {
      assert (ms + [m])[1..] == ms[1..] + [m];
      EncodeAllSnoc(ms[1..], m);
      Regroup(Encode(ms[0]), EncodeAll(ms[1..]), Encode(m));
    }
  }
}
