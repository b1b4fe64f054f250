/** Bytes, signed 16-bit header fields, and the sequence facts shared by every protocol module. */
module Bytes {

  type Byte = b: int | 0 <= b < 256

  type Octets = seq<Byte>

  /** The range of the C++ `short`, a signed 16-bit two's complement integer. */
  predicate IsShort(v: int) {
    -0x8000 <= v < 0x8000
  }

  /** `Big` is network order; `Little` is the memory order of the usual hosts. */
  datatype ByteOrder = Big | Little

  /** The `short` whose two bytes in memory, read in the given order, are `b0` and `b1`. */
  function DecodeShort(order: ByteOrder, b0: Byte, b1: Byte): (v: int)
    ensures IsShort(v)
  {
    var u := if order.Big? then 256 * b0 + b1 else 256 * b1 + b0;
    if u < 0x8000 then u else u - 0x1_0000
  }

  /** The two bytes in memory of `v` converted to a `short`, that is of its low 16 bits. */
  function EncodeShort(order: ByteOrder, v: int): (r: Octets)
    ensures |r| == 2
  {
    var u := v % 0x1_0000;
    if order.Big? then [u / 256, u % 256] else [u % 256, u / 256]
  }

  /** Encoding and decoding are inverse bijections between shorts and byte pairs. */
  lemma ShortCodec(order: ByteOrder, v: int, b0: Byte, b1: Byte)
    ensures var e := EncodeShort(order, v);
            DecodeShort(order, e[0], e[1]) == v <==> IsShort(v)
    ensures EncodeShort(order, DecodeShort(order, b0, b1)) == [b0, b1]
  {
    var high, low := if order.Big? then b0 else b1, if order.Big? then b1 else b0;
    LowBits(DecodeShort(order, b0, b1));
    Halves(256 * high + low, high, low);
    var u := v % 0x1_0000;
    LowBits(v);
    Halves(u, u / 256, u % 256);
  }

  /** Which byte comes first: the high one in network order, the low one in the order of the usual hosts. */
  lemma ByteOrders(v: int, b0: Byte, b1: Byte)
    ensures DecodeShort(Big, b0, b1) == 256 * b0 + b1 - (if b0 < 128 then 0 else 0x1_0000)
    ensures DecodeShort(Little, b0, b1) == 256 * b1 + b0 - (if b1 < 128 then 0 else 0x1_0000)
    ensures 0 <= v < 0x8000 ==>
              && 256 * (EncodeShort(Big, v)[0] as int) + EncodeShort(Big, v)[1] == v
              && 256 * (EncodeShort(Little, v)[1] as int) + EncodeShort(Little, v)[0] == v
    ensures -0x8000 <= v < 0 ==>
              && 256 * (EncodeShort(Big, v)[0] as int) + EncodeShort(Big, v)[1] == v + 0x1_0000
              && 256 * (EncodeShort(Little, v)[1] as int) + EncodeShort(Little, v)[0] == v + 0x1_0000
  {
    LowBits(v);
    var u := v % 0x1_0000;
    Halves(u, u / 256, u % 256);
  }

  /** The low 16 bits of a value, and when they determine it. */
  lemma LowBits(v: int)
    ensures IsShort(v) <==> v == (if v % 0x1_0000 < 0x8000 then v % 0x1_0000 else v % 0x1_0000 - 0x1_0000)
  {
  }

  lemma Halves(u: int, high: int, low: int)
    requires 0 <= low < 256
    ensures u == 256 * high + low <==> u / 256 == high && u % 256 == low
  {
  }

  lemma Regroup(a: Octets, b: Octets, c: Octets)
    ensures a + b + c == a + (b + c)
  {
  }

  lemma Rejoin(h: Octets, part: Octets, x: Octets, t: Octets)
    ensures (h + part) + (x + t) == h + (part + x) + t
  {
    Regroup(h, part, x + t);
    Regroup(part, x, t);
    Regroup(h, part + x, t);
  }

  function Flatten<T>(parts: seq<seq<T>>): seq<T>
  {
    if parts == [] then [] else parts[0] + Flatten(parts[1..])
  }

  lemma {:induction false} FlattenAppend<T>(a: seq<seq<T>>, b: seq<seq<T>>)
    ensures Flatten(a + b) == Flatten(a) + Flatten(b)
  {
    if a == [] {
      assert a + b == b;
    } else {
      assert (a + b)[1..] == a[1..] + b;
      FlattenAppend(a[1..], b);
    }
  }

  lemma FlattenSnoc<T>(a: seq<seq<T>>, x: seq<T>)
    ensures Flatten(a + [x]) == Flatten(a) + x
  {
    FlattenAppend(a, [x]);
    assert Flatten([x]) == x + Flatten<T>([]);
  }

  /** Concatenation keeps the prefix order. */
  lemma FlattenPrefix<T>(a: seq<seq<T>>, b: seq<seq<T>>)
    requires a <= b
    ensures Flatten(a) <= Flatten(b)
  {
    assert b == a + b[|a|..];
    FlattenAppend(a, b[|a|..]);
  }

  /** `a` is what remains of `b` after deleting some elements, the order kept. */
  predicate Subsequence<T(==)>(a: seq<T>, b: seq<T>)
    decreases |b|
  {
    if a == [] then true
    else if b == [] then false
    else
      || (a[|a| - 1] == b[|b| - 1] && Subsequence(a[..|a| - 1], b[..|b| - 1]))
      || Subsequence(a, b[..|b| - 1])
  }

  lemma SubsequenceKeep<T>(a: seq<T>, b: seq<T>, x: T)
    requires Subsequence(a, b)
    ensures Subsequence(a + [x], b + [x])
  {
    assert (a + [x])[..|a|] == a && (b + [x])[..|b|] == b;
  }

  lemma SubsequenceSkip<T>(a: seq<T>, b: seq<T>, x: T)
    requires Subsequence(a, b)
    ensures Subsequence(a, b + [x])
  {
    assert (b + [x])[..|b|] == b;
  }

  lemma {:induction false} SubsequenceExtend<T>(a: seq<T>, b: seq<T>, c: seq<T>)
    requires Subsequence(a, b)
    ensures Subsequence(a, b + c)
    decreases |c|
  {
    if c == [] {
      assert b + c == b;
    } else {
      var last := |c| - 1;
      SubsequenceExtend(a, b, c[..last]);
      SubsequenceSkip(a, b + c[..last], c[last]);
      assert b + c[..last] + [c[last]] == b + c;
    }
  }

  /** A subsequence is no longer than the whole, and equal to it when as long. */
  lemma {:induction false} SubsequenceLength<T>(a: seq<T>, b: seq<T>)
    requires Subsequence(a, b)
    ensures |a| <= |b|
    ensures |a| == |b| ==> a == b
    decreases |b|
  {
    if a != [] {
      var a', b' := a[..|a| - 1], b[..|b| - 1];
      if a[|a| - 1] == b[|b| - 1] && Subsequence(a', b') {
        SubsequenceLength(a', b');
        assert a == a' + [a[|a| - 1]] && b == b' + [b[|b| - 1]];
      } else {
        SubsequenceLength(a, b');
      }
    }
  }

  lemma {:induction false} SubsequenceInit<T>(a: seq<T>, b: seq<T>)
    requires Subsequence(a, b) && a != []
    ensures Subsequence(a[..|a| - 1], b)
    decreases |b|
  {
    var a', b' := a[..|a| - 1], b[..|b| - 1];
    if a[|a| - 1] == b[|b| - 1] && Subsequence(a', b') {
    } else {
      SubsequenceInit(a, b');
    }
    assert b == b' + [b[|b| - 1]];
    SubsequenceSkip(a', b', b[|b| - 1]);
  }

  /** A prefix of a subsequence is one too. */
  lemma {:induction false} SubsequencePrefix<T>(a: seq<T>, b: seq<T>, c: seq<T>)
    requires a <= b && Subsequence(b, c)
    ensures Subsequence(a, c)
    decreases |b|
  {
    if a != b {
      SubsequenceInit(b, c);
      SubsequencePrefix(a, b[..|b| - 1], c);
    }
  }
}
