/**
 * Framing by a 2-byte signed length: the whole-stream parser that defines it, the incremental
 * parser of S04 and the exact-read machine of S07, and how the three relate.
 */
module FrameSpec {
  import opened Bytes

  const HEAD_LENGTH := 2
  const MAX_LENGTH := 2048

  /**
   * Where a reader stands between two callbacks: some bytes of a header, a parsed header with part
   * of its body, an oversized length, or a negative length (no behaviour is defined after it).
   */
  datatype Reader =
    | Head(part: Octets)
    | Body(need: nat, part: Octets)
    | Rejected
    | Faulted
  {
    predicate Ok() {
      match this
      case Head(p) => |p| < HEAD_LENGTH
      case Body(n, p) => |p| < n <= MAX_LENGTH
      case _ => true
    }

    predicate Live() {
      Head? || Body?
    }
  }

  datatype Parsed = Parsed(msgs: seq<Octets>, rest: Reader)

  function Frame(order: ByteOrder, m: Octets): Octets
  {
    EncodeShort(order, |m|) + m
  }

  function Frames(order: ByteOrder, ms: seq<Octets>): (fs: seq<Octets>)
    ensures |fs| == |ms|
    ensures forall i :: 0 <= i < |ms| ==> fs[i] == Frame(order, ms[i])
  {
    seq(|ms|, i requires 0 <= i < |ms| => Frame(order, ms[i]))
  }

  lemma FramesAppend(order: ByteOrder, a: seq<Octets>, b: seq<Octets>)
    ensures Frames(order, a + b) == Frames(order, a) + Frames(order, b)
  {
  }

  /** The bytes of a message list on the wire. */
  function Wire(order: ByteOrder, ms: seq<Octets>): Octets
  {
    Flatten(Frames(order, ms))
  }

  lemma WireCons(order: ByteOrder, ms: seq<Octets>)
    requires ms != []
    ensures Wire(order, ms) == Frame(order, ms[0]) + Wire(order, ms[1..])
  {
    assert Frames(order, ms)[1..] == Frames(order, ms[1..]);
  }

  /** The whole-stream parser: the meaning of the protocol. */
  function Parse(order: ByteOrder, s: Octets): (p: Parsed)
    ensures p.rest.Ok()
    decreases |s|
  {
    if |s| < HEAD_LENGTH then Parsed([], Head(s))
    else
      var n := DecodeShort(order, s[0], s[1]);
      if n > MAX_LENGTH then Parsed([], Rejected)
      else if n < 0 then Parsed([], Faulted)
      else if |s| - HEAD_LENGTH < n then Parsed([], Body(n, s[HEAD_LENGTH..]))
      else
        var tail := Parse(order, s[HEAD_LENGTH + n..]);
        Parsed([s[HEAD_LENGTH..HEAD_LENGTH + n]] + tail.msgs, tail.rest)
  }

  /** A client's frame, by its bytes: the length is the first byte times 256 plus the second. */
  lemma NetworkFrame(b0: Byte, b1: Byte, t: Octets)
    ensures b0 < 128 && |t| == 256 * b0 + b1 <= 2048 ==> Parse(Big, [b0, b1] + t) == Parsed([t], Head([]))
    ensures b0 < 128 && 256 * b0 + b1 > 2048 ==> Parse(Big, [b0, b1] + t) == Parsed([], Rejected)
    ensures b0 >= 128 ==> Parse(Big, [b0, b1] + t) == Parsed([], Faulted)
  {
    ByteOrders(0, b0, b1);
    OneFrame(Big, b0, b1, t);
  }

  /** The same in the byte order of the host. */
  lemma HostFrame(b0: Byte, b1: Byte, t: Octets)
    ensures b1 < 128 && |t| == 256 * b1 + b0 <= 2048 ==>
              && Parse(Little, [b0, b1] + t) == Parsed([t], Head([]))
              && RunExact(Little, WantHead, [b0, b1] + t) == ExactRun([t], WantHead, false, [])
    ensures b1 < 128 && 256 * b1 + b0 > 2048 ==> RunExact(Little, WantHead, [b0, b1] + t).removed
    ensures b1 >= 128 ==> RunExact(Little, WantHead, [b0, b1] + t) == ExactRun([], Broken, false, t)
  {
    ByteOrders(0, b0, b1);
    OneFrame(Little, b0, b1, t);
  }

  lemma OneFrame(order: ByteOrder, b0: Byte, b1: Byte, t: Octets)
    ensures var n := DecodeShort(order, b0, b1);
            && Parse(order, [b0, b1] + t)
               == (if n > MAX_LENGTH then Parsed([], Rejected)
                   else if n < 0 then Parsed([], Faulted)
                   else if |t| < n then Parsed([], Body(n, t))
                   else Parsed([t[..n]] + Parse(order, t[n..]).msgs, Parse(order, t[n..]).rest))
            && (|t| == n ==> Parse(order, t[n..]) == Parsed([], Head([])))
            && RunExact(order, WantHead, [b0, b1] + t)
               == (var next := RunExact(order, AfterHead(order, b0, b1), t);
                   next.(removed := next.removed || n > MAX_LENGTH))
            && (|t| == n <= MAX_ECHO ==>
                  RunExact(order, WantBody(n), t) == ExactRun([t], WantHead, false, []))
  {
    hide DecodeShort;
    var n := DecodeShort(order, b0, b1);
    var s := [b0, b1] + t;
    assert s[HEAD_LENGTH..] == t;
    if 0 <= n <= |t| {
      assert s[HEAD_LENGTH..HEAD_LENGTH + n] == t[..n] && s[HEAD_LENGTH + n..] == t[n..];
      if n == |t| {
        assert t[..n] == t && t[n..] == [];
      }
    }
  }

  /** The frame written for a message, by its bytes. */
  lemma FrameBytes(m: Octets)
    requires |m| < 0x8000
    ensures var f := Frame(Big, m); |f| == |m| + 2 && 256 * (f[0] as int) + f[1] == |m| && f[2..] == m
    ensures var f := Frame(Little, m); |f| == |m| + 2 && 256 * (f[1] as int) + f[0] == |m| && f[2..] == m
  {
    ByteOrders(|m|, 0, 0);
  }

  /** What a stream must look like for `ms` and `rest` to be its parse, without running a parser. */
  ghost predicate Splits(order: ByteOrder, s: Octets, ms: seq<Octets>, rest: Reader)
  {
    && rest.Ok()
    && (forall i :: 0 <= i < |ms| ==> |ms[i]| <= MAX_LENGTH)
    && var w := Wire(order, ms);
       match rest
       case Head(p) => s == w + p
       case Body(n, p) => s == w + EncodeShort(order, n) + p
       case Rejected =>
         |s| >= |w| + 2 && s[..|w|] == w && DecodeShort(order, s[|w|], s[|w| + 1]) > MAX_LENGTH
       case Faulted =>
         |s| >= |w| + 2 && s[..|w|] == w && DecodeShort(order, s[|w|], s[|w| + 1]) < 0
  }

  /** A stream that begins with a complete frame parses as that frame and then the rest. */
  lemma ParseFrame(order: ByteOrder, m: Octets, t: Octets)
    requires |m| <= MAX_LENGTH
    ensures var p := Parse(order, t);
            Parse(order, Frame(order, m) + t) == Parsed([m] + p.msgs, p.rest)
  {
    var s := Frame(order, m) + t;
    var n := |m|;
    ShortCodec(order, n, 0, 0);
    assert s[0] == Frame(order, m)[0] && s[1] == Frame(order, m)[1];
    assert s[HEAD_LENGTH..HEAD_LENGTH + n] == m;
    assert s[HEAD_LENGTH + n..] == t;
  }

  /** The other way round: a stream whose first message is complete begins with that frame. */
  lemma ParseUncons(order: ByteOrder, s: Octets)
    requires Parse(order, s).msgs != []
    ensures var p := Parse(order, s);
            var m := p.msgs[0];
            var t := s[|Frame(order, m)|..];
            && |m| <= MAX_LENGTH
            && |s| >= |Frame(order, m)|
            && s == Frame(order, m) + t
            && p == Parsed([m] + Parse(order, t).msgs, Parse(order, t).rest)
  {
    var n := DecodeShort(order, s[0], s[1]);
    ShortCodec(order, 0, s[0], s[1]);
    hide EncodeShort, DecodeShort;
    var m := s[HEAD_LENGTH..HEAD_LENGTH + n];
    assert s[..HEAD_LENGTH] == EncodeShort(order, n);
    assert s[..HEAD_LENGTH + n] == s[..HEAD_LENGTH] + m == Frame(order, m);
  }

  /** Putting a frame in front of a stream puts its message in front of the split. */
  lemma SplitsCons(order: ByteOrder, m: Octets, t: Octets, ms: seq<Octets>, rest: Reader)
    requires |m| <= MAX_LENGTH
    ensures Splits(order, Frame(order, m) + t, [m] + ms, rest) <==> Splits(order, t, ms, rest)
  {
    hide Wire, Frame, EncodeShort;
    var f, w := Frame(order, m), Wire(order, ms);
    WireCons(order, [m] + ms);
    assert ([m] + ms)[1..] == ms;
    assert Wire(order, [m] + ms) == f + w;
    assert (forall i :: 0 <= i < |[m] + ms| ==> |([m] + ms)[i]| <= MAX_LENGTH)
      <==> (forall i :: 0 <= i < |ms| ==> |ms[i]| <= MAX_LENGTH) by {
      assert forall i :: 0 <= i < |ms| ==> ms[i] == ([m] + ms)[i + 1];
    }
    match rest
    case Head(p) =>
      PrependEqual(f, t, w + p);
      assert f + w + p == f + (w + p);
    case Body(n, p) =>
      var h := EncodeShort(order, n);
      PrependEqual(f, t, w + h + p);
      assert f + w + h + p == f + (w + h + p);
    case _ =>
      if |t| >= |w| + 2 {
        assert (f + t)[..|f + w|] == f + t[..|w|];
        PrependEqual(f, t[..|w|], w);
        assert (f + t)[|f + w|] == t[|w|] && (f + t)[|f + w| + 1] == t[|w| + 1];
      }
  }

  lemma PrependEqual(f: Octets, a: Octets, b: Octets)
    ensures f + a == f + b <==> a == b
  {
    assert a == (f + a)[|f|..] && b == (f + b)[|f|..];
  }

  lemma {:induction false} ParseSplits(order: ByteOrder, s: Octets)
    ensures var p := Parse(order, s); Splits(order, s, p.msgs, p.rest)
    decreases |s|
  {
    var p := Parse(order, s);
    if p.msgs == [] {
      if |s| >= HEAD_LENGTH {
        ShortCodec(order, 0, s[0], s[1]);
      }
    } else {
      ParseUncons(order, s);
      var t := s[|Frame(order, p.msgs[0])|..];
      ParseSplits(order, t);
      SplitsCons(order, p.msgs[0], t, Parse(order, t).msgs, p.rest);
    }
  }

  lemma {:induction false} SplitsParse(order: ByteOrder, s: Octets, ms: seq<Octets>, rest: Reader)
    requires Splits(order, s, ms, rest)
    ensures Parse(order, s) == Parsed(ms, rest)
    decreases |ms|
  {
    if ms == [] {
      SplitsParseNone(order, s, rest);
    } else {
      SplitsUncons(order, s, ms, rest);
      hide Wire, Frame, Parse, Splits;
      var f := Frame(order, ms[0]);
      assert ms == [ms[0]] + ms[1..];
      SplitsParse(order, s[|f|..], ms[1..], rest);
      ParseFrame(order, ms[0], s[|f|..]);
    }
  }

  lemma SplitsParseNone(order: ByteOrder, s: Octets, rest: Reader)
    requires Splits(order, s, [], rest)
    ensures Parse(order, s) == Parsed([], rest)
  {
    if rest.Body? {
      ShortCodec(order, rest.need, 0, 0);
      assert s[HEAD_LENGTH..] == rest.part;
    }
  }

  /** A split with a first message is a frame and then a split of the rest. */
  lemma SplitsUncons(order: ByteOrder, s: Octets, ms: seq<Octets>, rest: Reader)
    requires Splits(order, s, ms, rest) && ms != []
    ensures var f := Frame(order, ms[0]);
            && |ms[0]| <= MAX_LENGTH && |f| <= |s| && s == f + s[|f|..]
            && Splits(order, s[|f|..], ms[1..], rest)
  {
    hide Wire, EncodeShort, DecodeShort;
    var f := Frame(order, ms[0]);
    WireCons(order, ms);
    hide Frame;
    assert |f| <= |s| && s[..|f|] == f;
    assert s == f + s[|f|..];
    assert ms == [ms[0]] + ms[1..];
    SplitsCons(order, ms[0], s[|f|..], ms[1..], rest);
  }

  /** The parser gives exactly the one decomposition of the stream that the format allows. */
  lemma ParseCharacterised(order: ByteOrder, s: Octets, ms: seq<Octets>, rest: Reader)
    ensures Parse(order, s) == Parsed(ms, rest) <==> Splits(order, s, ms, rest)
  {
    ParseSplits(order, s);
    if Splits(order, s, ms, rest) {
      SplitsParse(order, s, ms, rest);
    }
  }

  /** What one arriving chunk adds to a reader: the messages it completes and the new state. */
  function Feed(order: ByteOrder, r: Reader, chunk: Octets): (f: Parsed)
    requires r.Ok()
    ensures f.rest.Ok()
  {
    match r
    case Head(p) => Parse(order, p + chunk)
    case Body(n, p) =>
      if |p| + |chunk| < n then Parsed([], Body(n, p + chunk))
      else
        var tail := Parse(order, chunk[n - |p|..]);
        Parsed([p + chunk[..n - |p|]] + tail.msgs, tail.rest)
    case _ => Parsed([], r)
  }

  /** What a header announcing length `n` asks of the bytes `t` after it. */
  function Announced(order: ByteOrder, n: int, t: Octets): (f: Parsed)
    ensures f.rest.Ok()
  {
    if n > MAX_LENGTH then Parsed([], Rejected)
    else if n < 0 then Parsed([], Faulted)
    else if |t| < n then Parsed([], Body(n, t))
    else
      var g := Feed(order, Head([]), t[n..]);
      Parsed([t[..n]] + g.msgs, g.rest)
  }

  /** One turn of the S04 loop with the header still to be finished. */
  lemma FeedHead(order: ByteOrder, part: Octets, chunk: Octets)
    requires |part| < HEAD_LENGTH
    ensures var f := Feed(order, Head(part), chunk);
            var need := HEAD_LENGTH - |part|;
            if |chunk| < need then f == Parsed([], Head(part + chunk))
            else
              var h := part + chunk[..need];
              f == Announced(order, DecodeShort(order, h[0], h[1]), chunk[need..])
  {
    var need := HEAD_LENGTH - |part|;
    if |chunk| >= need {
      var s, t := part + chunk, chunk[need..];
      var n := DecodeShort(order, s[0], s[1]);
      assert s[HEAD_LENGTH..] == t;
      if 0 <= n <= |t| {
        assert s[HEAD_LENGTH..HEAD_LENGTH + n] == t[..n];
        assert s[HEAD_LENGTH + n..] == [] + t[n..];
      }
    }
  }

  /** One turn of the S04 loop inside a body. */
  lemma FeedBody(order: ByteOrder, n: nat, part: Octets, chunk: Octets)
    requires |part| < n <= MAX_LENGTH
    ensures var f := Feed(order, Body(n, part), chunk);
            var need := n - |part|;
            if |chunk| < need then f == Parsed([], Body(n, part + chunk))
            else
              var g := Feed(order, Head([]), chunk[need..]);
              f == Parsed([part + chunk[..need]] + g.msgs, g.rest)
  {
    if |chunk| >= n - |part| {
      assert [] + chunk[n - |part|..] == chunk[n - |part|..];
    }
  }

  function FeedAll(order: ByteOrder, r: Reader, chunks: seq<Octets>): Parsed
    requires r.Ok()
    decreases |chunks|
  {
    if chunks == [] then Parsed([], r)
    else
      var first := Feed(order, r, chunks[0]);
      var others := FeedAll(order, first.rest, chunks[1..]);
      Parsed(first.msgs + others.msgs, others.rest)
  }

  /** Stopping the whole-stream parser anywhere and feeding it the remainder changes nothing. */
  lemma {:induction false} ParseResumes(order: ByteOrder, a: Octets, b: Octets)
    ensures var p := Parse(order, a);
            var f := Feed(order, p.rest, b);
            Parse(order, a + b) == Parsed(p.msgs + f.msgs, f.rest)
    decreases |a|
  {
    hide Parse, Feed, Frame;
    var p := Parse(order, a);
    if p.msgs == [] {
      ParseResumesAtOnce(order, a, b);
    } else {
      ParseUncons(order, a);
      var m := p.msgs[0];
      var t := a[|Frame(order, m)|..];
      ParseResumes(order, t, b);
      ParseFrame(order, m, t + b);
      assert a + b == Frame(order, m) + (t + b);
      assert [m] + (Parse(order, t).msgs + Feed(order, p.rest, b).msgs)
        == [m] + Parse(order, t).msgs + Feed(order, p.rest, b).msgs;
    }
  }

  lemma ParseResumesAtOnce(order: ByteOrder, a: Octets, b: Octets)
    requires Parse(order, a).msgs == []
    ensures Parse(order, a + b) == Feed(order, Parse(order, a).rest, b)
  {
    if |a| >= HEAD_LENGTH {
      assert (a + b)[0] == a[0] && (a + b)[1] == a[1];
      var n := DecodeShort(order, a[0], a[1]);
      if 0 <= n <= MAX_LENGTH {
        assert (a + b)[HEAD_LENGTH..] == a[HEAD_LENGTH..] + b;
        if |a| - HEAD_LENGTH + |b| >= n {
          BodyCompleted(order, n, a, b);
        }
      }
    }
  }

  /** `b` completes the body that `a` breaks off in. */
  lemma BodyCompleted(order: ByteOrder, n: nat, a: Octets, b: Octets)
    requires |a| >= HEAD_LENGTH && n == DecodeShort(order, a[0], a[1]) && n <= MAX_LENGTH
    requires |a| - HEAD_LENGTH < n <= |a| - HEAD_LENGTH + |b|
    ensures var part := a[HEAD_LENGTH..];
            var p := Parse(order, b[n - |part|..]);
            Parse(order, a + b) == Parsed([part + b[..n - |part|]] + p.msgs, p.rest)
  {
    var h, part := a[..HEAD_LENGTH], a[HEAD_LENGTH..];
    var x, t := b[..n - |part|], b[n - |part|..];
    ShortCodec(order, 0, h[0], h[1]);
    assert h == [h[0], h[1]] == EncodeShort(order, n);
    ParseFrame(order, part + x, t);
    hide Parse, EncodeShort, DecodeShort;
    assert a == h + part && b == x + t;
    Rejoin(h, part, x, t);
  }

  lemma {:induction false} FeedAllResumes(order: ByteOrder, a: Octets, chunks: seq<Octets>)
    ensures var p := Parse(order, a);
            var f := FeedAll(order, p.rest, chunks);
            Parse(order, a + Flatten(chunks)) == Parsed(p.msgs + f.msgs, f.rest)
    decreases |chunks|
  {
    hide Parse, Feed;
    if chunks == [] {
      assert a + Flatten(chunks) == a;
    } else {
      ParseResumes(order, a, chunks[0]);
      FeedAllResumes(order, a + chunks[0], chunks[1..]);
      assert a + Flatten(chunks) == a + chunks[0] + Flatten(chunks[1..]);
    }
  }

  /** However a stream is cut, the incremental parser ends where the whole-stream parser ends. */
  lemma ChunkingIndependence(order: ByteOrder, chunks: seq<Octets>)
    ensures FeedAll(order, Head([]), chunks) == Parse(order, Flatten(chunks))
  {
    assert Parse(order, []) == Parsed([], Head([]));
    hide *;
    FeedAllResumes(order, [], chunks);
    assert [] + Flatten(chunks) == Flatten(chunks);
  }

  /**
   * The exact-read machine of S07: it asks for a 2-byte header, then for a body of that length.
   * `Broken`: a negative length, or a body too long to be echoed; nothing is claimed after it.
   */
  datatype Exact = WantHead | WantBody(need: nat) | Broken

  /** The longest body whose frame still has a `short` for its length. */
  const MAX_ECHO := 0x7FFF - HEAD_LENGTH

  /** `removed`: the session was taken off the map; `left`: bytes not yet asked for. */
  datatype ExactRun = ExactRun(msgs: seq<Octets>, state: Exact, removed: bool, left: Octets)

  function AfterHead(order: ByteOrder, b0: Byte, b1: Byte): Exact
  {
    var n := DecodeShort(order, b0, b1);
    if n < 0 then Broken else WantBody(n)
  }

  function RunExact(order: ByteOrder, e: Exact, s: Octets): ExactRun
    decreases |s|, if e.WantBody? then 1 else 0
  {
    match e
    case WantHead =>
      if |s| < HEAD_LENGTH then ExactRun([], e, false, s)
      else
        var next := RunExact(order, AfterHead(order, s[0], s[1]), s[HEAD_LENGTH..]);
        next.(removed := next.removed || DecodeShort(order, s[0], s[1]) > MAX_LENGTH)
    case WantBody(n) =>
      if |s| < n then ExactRun([], e, false, s)
      else
        var next := RunExact(order, if n > MAX_ECHO then Broken else WantHead, s[n..]);
        next.(msgs := [s[..n]] + next.msgs)
    case Broken => ExactRun([], e, false, s)
  }

  /** Both stand at the same point of the stream, or both have taken the session off the map. */
  predicate SameStand(r: Reader, x: ExactRun) {
    match r
    case Head(p) => x.state == WantHead && x.left == p
    case Body(n, p) => x.state == WantBody(n) && x.left == p
    case Faulted => x.state == Broken
    case Rejected => x.removed
  }

  /** The stream goes on to the end of the first body that is too long. */
  ghost predicate HoldsOversizedBody(order: ByteOrder, s: Octets) {
    var p := Parse(order, s);
    var w := |Wire(order, p.msgs)|;
    && p.rest.Rejected? && |s| >= w + HEAD_LENGTH
    && |s| >= w + HEAD_LENGTH + DecodeShort(order, s[w], s[w + 1])
  }

  /**
   * The two designs part only at an oversized length. Without one they deliver the same messages,
   * stand at the same point and keep the session on the map. With one both take it off the map, but
   * the exact machine goes on reading: it delivers more exactly when the oversized body is there.
   */
  lemma {:induction false} DesignsAgreeOnStream(order: ByteOrder, s: Octets)
    ensures var p, x := Parse(order, s), RunExact(order, WantHead, s);
            && (!p.rest.Rejected? <==> x.msgs == p.msgs && SameStand(p.rest, x) && !x.removed)
            && (p.rest.Rejected? <==> x.removed)
            && p.msgs <= x.msgs
            && (x.msgs == p.msgs <==> !HoldsOversizedBody(order, s))
    decreases |s|
  {
    var p := Parse(order, s);
    if p.msgs == [] {
      AgreeAtOnce(order, s);
    } else {
      ParseUncons(order, s);
      var m := p.msgs[0];
      var f := Frame(order, m);
      var t := s[|f|..];
      RunFrame(order, m, t);
      HoldsBehindFrame(order, m, t);
      hide Parse, RunExact, Frame, HoldsOversizedBody;
      DesignsAgreeOnStream(order, t);
      var q, x := Parse(order, t).msgs, RunExact(order, WantHead, t).msgs;
      assert x == q <==> [m] + x == [m] + q by {
        assert x == ([m] + x)[1..] && q == ([m] + q)[1..];
      }
    }
  }

  /** A complete frame in front changes nothing about an oversized body further on. */
  lemma HoldsBehindFrame(order: ByteOrder, m: Octets, t: Octets)
    requires |m| <= MAX_LENGTH
    ensures HoldsOversizedBody(order, Frame(order, m) + t) <==> HoldsOversizedBody(order, t)
  {
    ParseFrame(order, m, t);
    hide Parse, Frame, Wire, DecodeShort;
    var p := Parse(order, t);
    var f, w := Frame(order, m), |Wire(order, p.msgs)|;
    WireCons(order, [m] + p.msgs);
    assert ([m] + p.msgs)[1..] == p.msgs;
    if |t| >= w + HEAD_LENGTH {
      assert (f + t)[|f| + w] == t[w] && (f + t)[|f| + w + 1] == t[w + 1];
    }
  }

  lemma AgreeAtOnce(order: ByteOrder, s: Octets)
    requires Parse(order, s).msgs == []
    ensures var p, x := Parse(order, s), RunExact(order, WantHead, s);
            && (!p.rest.Rejected? ==> x.msgs == [] && SameStand(p.rest, x))
            && (p.rest.Rejected? <==> x.removed)
            && (x.msgs == [] <==> !HoldsOversizedBody(order, s))
  {
    assert Wire(order, []) == [];
  }

  /** The exact machine, too, takes a complete frame off the front of the stream. */
  lemma RunFrame(order: ByteOrder, m: Octets, t: Octets)
    requires |m| <= MAX_LENGTH
    ensures var x := RunExact(order, WantHead, t);
            RunExact(order, WantHead, Frame(order, m) + t) == x.(msgs := [m] + x.msgs)
  {
    var s := Frame(order, m) + t;
    ShortCodec(order, |m|, 0, 0);
    assert s[0] == Frame(order, m)[0] && s[1] == Frame(order, m)[1];
    assert s[HEAD_LENGTH..][..|m|] == m && s[HEAD_LENGTH..][|m|..] == t;
  }

  /** S04 over any chunking and S07 over the same bytes. */
  lemma DesignsAgree(order: ByteOrder, chunks: seq<Octets>)
    ensures var s := Flatten(chunks);
            var f, x := FeedAll(order, Head([]), chunks), RunExact(order, WantHead, s);
            && (f.rest.Rejected? <==> x.removed)
            && (!f.rest.Rejected? <==> x.msgs == f.msgs && SameStand(f.rest, x) && !x.removed)
            && (x.msgs == f.msgs <==> !HoldsOversizedBody(order, s))
  {
    ChunkingIndependence(order, chunks);
    DesignsAgreeOnStream(order, Flatten(chunks));
  }

  /** They do part: a body over the limit is refused by S04 and delivered by S07. */
  lemma DesignsPart(order: ByteOrder, m: Octets)
    requires MAX_LENGTH < |m| <= MAX_ECHO
    ensures var s := Frame(order, m);
            && Parse(order, s) == Parsed([], Rejected)
            && RunExact(order, WantHead, s) == ExactRun([m], WantHead, true, [])
  {
    var s := Frame(order, m);
    ShortCodec(order, |m|, 0, 0);
    assert s[HEAD_LENGTH..] == m && m[..|m|] == m && m[|m|..] == [];
    assert RunExact(order, WantHead, []) == ExactRun([], WantHead, false, []);
    assert RunExact(order, WantBody(|m|), m) == ExactRun([m], WantHead, false, []);
  }
}
