/**
 Length-prefixed framing of IPC messages: four little-endian length bytes, then the
 payload. Serialisation itself is a partial pair of functions.
 */
module Framing {
  import opened Wrappers

  /** 64 MiB; the receiver hangs up on a longer prefix. */
  const MAX_MSG_LEN: nat := 64 * 1024 * 1024
  const TWO_32: nat := 0x1_0000_0000

  /** The low 32 bits of `n`, least significant byte first: the cast drops the rest. */
  function ToLe32(n: nat): (b: seq<byte>)
    ensures |b| == 4
  {
    [n % 256, n / 256 % 256, n / 256 / 256 % 256, n / 256 / 256 / 256 % 256]
  }

  function FromLe32(b: seq<byte>): (n: nat)
    requires |b| >= 4
  {
    b[0] as int + 256 * (b[1] as int + 256 * (b[2] as int + 256 * b[3] as int))
  }

  lemma Le32RoundTrip(n: nat)
    ensures FromLe32(ToLe32(n)) == n % TWO_32
  {
    var q1 := n / 256;
    var q2 := q1 / 256;
    var q3 := q2 / 256;
    assert n == 256 * q1 + n % 256 && q1 == 256 * q2 + q1 % 256 && q2 == 256 * q3 + q2 % 256;
    assert q3 == 256 * (q3 / 256) + q3 % 256;
  }

  lemma Le32RoundTripSmall(n: nat)
    requires n < TWO_32
    ensures FromLe32(ToLe32(n)) == n
  {
    Le32RoundTrip(n);
  }

  lemma Le32Injective(a: seq<byte>, b: seq<byte>)
    requires |a| == 4 && |b| == 4 && FromLe32(a) == FromLe32(b)
    ensures a == b
  {
    LowDigit(a[0], a[1] as int + 256 * (a[2] as int + 256 * a[3] as int),
             b[0], b[1] as int + 256 * (b[2] as int + 256 * b[3] as int));
    LowDigit(a[1], a[2] as int + 256 * a[3] as int, b[1], b[2] as int + 256 * b[3] as int);
    LowDigit(a[2], a[3] as int, b[2], b[3] as int);
  }

  lemma LowDigit(x: byte, hi: int, y: byte, hi': int)
    requires x as int + 256 * hi == y as int + 256 * hi'
    ensures x == y && hi == hi'
  {
  }

  function Frame(payload: seq<byte>): (f: seq<byte>) {
    ToLe32(|payload|) + payload
  }

  /** What the receiver makes of the front of a stream: not enough bytes, a length it
      refuses, or a payload and the bytes after it. */
  datatype Read = Truncated | Rejected | Payload(payload: seq<byte>, rest: seq<byte>)

  function ReadFrame(s: seq<byte>): (r: Read) {
    if |s| < 4 then Truncated
    else
      var len := FromLe32(s);
      if len > MAX_MSG_LEN then Rejected
      else if |s| - 4 < len then Truncated
      else Payload(s[4..4 + len], s[4 + len..])
  }

  /** The header tells the truth exactly below 4 GiB. */
  lemma HeaderIsTruthful(payload: seq<byte>, rest: seq<byte>)
    ensures FromLe32(Frame(payload) + rest) == |payload| % TWO_32
    ensures FromLe32(Frame(payload) + rest) == |payload| <==> |payload| < TWO_32
  {
    Le32RoundTrip(|payload|);
    assert (Frame(payload) + rest)[..4] == ToLe32(|payload|);
  }

  /** A frame reads back as its own payload exactly when the payload has at most 64 MiB; a larger
      one the header can still describe is refused. */
  lemma FrameReadsBack(payload: seq<byte>, rest: seq<byte>)
    ensures ReadFrame(Frame(payload) + rest) == Payload(payload, rest) <==> |payload| <= 67_108_864
    ensures 67_108_864 < |payload| < TWO_32 ==> ReadFrame(Frame(payload) + rest) == Rejected
  {
    HeaderIsTruthful(payload, rest);
    var s := Frame(payload) + rest;
    if |payload| <= MAX_MSG_LEN {
      assert s[4..4 + |payload|] == payload && s[4 + |payload|..] == rest;
    }
  }

  /** Four bytes for each pixel of the largest image, and any metadata beside them: the limit that
      was meant to hold such a message refuses it. */
  lemma LargestImageIsRefused(payload: seq<byte>, metadata: nat, rest: seq<byte>)
    requires |payload| == 4096 * 4096 * 4 + metadata && metadata > 0 && |payload| < TWO_32
    ensures ReadFrame(Frame(payload) + rest) == Rejected
  {
    FrameReadsBack(payload, rest);
  }

  /** The low byte of the length goes first. */
  lemma ShortFrameBytes(payload: seq<byte>)
    requires |payload| < 256
    ensures Frame(payload) == [|payload|, 0, 0, 0] + payload
  {
  }

  function Flatten(payloads: seq<seq<byte>>): (s: seq<byte>) {
    if payloads == [] then [] else Frame(payloads[0]) + Flatten(payloads[1..])
  }

  lemma {:induction false} FlattenConcat(a: seq<seq<byte>>, b: seq<seq<byte>>)
    ensures Flatten(a + b) == Flatten(a) + Flatten(b)
  {
    if a == [] {
      assert a + b == b;
    } else {
      assert (a + b)[1..] == a[1..] + b;
      FlattenConcat(a[1..], b);
    }
  }

  // ----- The receive loop over a whole stream -----

  /** The payloads that decode, in order; the others are logged and skipped. */
  function Decodable<M>(decode: seq<byte> -> Option<M>, payloads: seq<seq<byte>>): (ms: seq<M>) {
    if payloads == [] then []
    else
      var front := Decodable(decode, payloads[..|payloads| - 1]);
      match decode(payloads[|payloads| - 1])
      case Some(m) => front + [m]
      case None => front
  }

  /** `s` is accepted frames followed by a tail that yields no further payload. */
  ghost predicate SplitsInto(s: seq<byte>, payloads: seq<seq<byte>>, tail: seq<byte>) {
    && s == Flatten(payloads) + tail
    && (forall i :: 0 <= i < |payloads| ==> |payloads[i]| <= MAX_MSG_LEN)
    && !ReadFrame(tail).Payload?
  }

  /** How the loop ends: the stream ran out, or a length was refused. */
  datatype End = StreamEnded | LengthRejected

  /** The payloads the reader accepts off a stream, and the bytes it is left with. */
  function Accepted(s: seq<byte>): (payloads: seq<seq<byte>>)
    decreases |s|
  {
    match ReadFrame(s)
    case Payload(p, rest) => [p] + Accepted(rest)
    case _ => []
  }

  function Leftover(s: seq<byte>): (tail: seq<byte>)
    decreases |s|
  {
    match ReadFrame(s)
    case Payload(_, rest) => Leftover(rest)
    case _ => s
  }

  lemma StopsHere(payloads: seq<seq<byte>>, rest: seq<byte>)
    requires !ReadFrame(rest).Payload?
    ensures payloads + Accepted(rest) == payloads && Leftover(rest) == rest
  {
  }

  lemma Regroup<T>(a: seq<T>, x: T, b: seq<T>)
    ensures a + ([x] + b) == (a + [x]) + b
  {
  }

  lemma GoesOn(payloads: seq<seq<byte>>, s: seq<byte>, p: seq<byte>, rest: seq<byte>)
    requires ReadFrame(s) == Payload(p, rest)
    ensures payloads + Accepted(s) == (payloads + [p]) + Accepted(rest) && Leftover(s) == Leftover(rest)
  {
    Regroup(payloads, p, Accepted(rest));
  }

  lemma DecodableSnoc<M>(decode: seq<byte> -> Option<M>, payloads: seq<seq<byte>>, payload: seq<byte>)
    ensures Decodable(decode, payloads + [payload]) == Decodable(decode, payloads)
              + (match decode(payload) case Some(m) => [m] case None => [])
  {
    assert (payloads + [payload])[..|payloads|] == payloads;
  }

  /** The receive loop: read a length, check it, read the payload, decode, deliver. */
  method ReceiveLoop<M>(stream: seq<byte>, decode: seq<byte> -> Option<M>) returns (delivered: seq<M>, end: End)
    ensures delivered == Decodable(decode, Accepted(stream))
    ensures end == if ReadFrame(Leftover(stream)).Rejected? then LengthRejected else StreamEnded
  {
    delivered := [];
    var rest := stream;
    ghost var payloads: seq<seq<byte>> := [];
    while true
      invariant payloads + Accepted(rest) == Accepted(stream) && Leftover(rest) == Leftover(stream)
      invariant delivered == Decodable(decode, payloads)
      decreases |rest|
    {
      if |rest| < 4 {
        StopsHere(payloads, rest);
        return delivered, StreamEnded;
      }
      var len := FromLe32(rest);
      if len > MAX_MSG_LEN {
        StopsHere(payloads, rest);
        return delivered, LengthRejected;
      }
      if |rest| - 4 < len {
        StopsHere(payloads, rest);
        return delivered, StreamEnded;
      }
      var payload := rest[4..4 + len];
      GoesOn(payloads, rest, payload, rest[4 + len..]);
      match decode(payload) {
        case Some(m) => delivered := delivered + [m];
        case None =>
      }
      DecodableSnoc(decode, payloads, payload);
      payloads := payloads + [payload];
      rest := rest[4 + len..];
    }
  }

  /** What the reader accepts is a split of the stream: frames of accepted payloads, then bytes
      that yield no further payload. */
  lemma {:induction false} AcceptedSplits(s: seq<byte>)
    ensures SplitsInto(s, Accepted(s), Leftover(s))
    decreases |s|
  {
    match ReadFrame(s)
    case Payload(p, rest) =>
      AcceptedSplits(rest);
      TakeFrame(s, p);
      assert Accepted(s)[1..] == Accepted(rest);
    case _ => assert s == Flatten([]) + s;
  }

  lemma SameHeader(s: seq<byte>, h: seq<byte>)
    requires |s| >= 4 && |h| == 4 && FromLe32(s) == FromLe32(h)
    ensures s[..4] == h
  {
    Le32Injective(s[..4], h);
  }

  /** A header within the limit is the header of its payload. */
  lemma HeaderOf(s: seq<byte>, payload: seq<byte>)
    requires |s| >= 4 && FromLe32(s) == |payload| < TWO_32
    ensures s[..4] == ToLe32(|payload|)
  {
    Le32RoundTripSmall(|payload|);
    SameHeader(s, ToLe32(|payload|));
  }

  /** One more payload flattens to one more frame. */
  lemma FlattenSnoc(payloads: seq<seq<byte>>, payload: seq<byte>)
    ensures Flatten(payloads + [payload]) == Flatten(payloads) + Frame(payload)
  {
    FlattenConcat(payloads, [payload]);
    assert Flatten([payload]) == Frame(payload) + Flatten([payload][1..]) == Frame(payload);
  }

  /** An accepted payload stands in the stream as its own frame. */
  lemma TakeFrame(s: seq<byte>, payload: seq<byte>)
    requires |s| >= 4 + |payload| && payload == s[4..4 + |payload|]
    requires FromLe32(s) == |payload| < TWO_32
    ensures s == Frame(payload) + s[4 + |payload|..]
  {
    HeaderOf(s, payload);
  }

  /** The first payload of a split is what the reader makes of the front of the stream. */
  lemma SplitFirst(s: seq<byte>, payloads: seq<seq<byte>>, tail: seq<byte>)
    requires SplitsInto(s, payloads, tail)
    ensures payloads == [] ==> s == tail && !ReadFrame(s).Payload?
    ensures payloads != [] ==>
              && ReadFrame(s) == Payload(payloads[0], Flatten(payloads[1..]) + tail)
              && SplitsInto(Flatten(payloads[1..]) + tail, payloads[1..], tail)
  {
    if payloads == [] {
      assert s == tail;
    } else {
      var rest := Flatten(payloads[1..]) + tail;
      assert s == Frame(payloads[0]) + rest;
      FrameReadsBack(payloads[0], rest);
    }
  }

  /** There is only one way to split a stream, so the loop's deliveries are a property of
      the stream: the decodable payloads before the first refused length or truncation. */
  lemma {:induction false} SplitIsUnique(s: seq<byte>, p1: seq<seq<byte>>, t1: seq<byte>,
                                         p2: seq<seq<byte>>, t2: seq<byte>)
    requires SplitsInto(s, p1, t1) && SplitsInto(s, p2, t2)
    ensures p1 == p2 && t1 == t2
    decreases |p1|
  {
    SplitFirst(s, p1, t1);
    SplitFirst(s, p2, t2);
    if p1 != [] {
      SplitIsUnique(ReadFrame(s).rest, p1[1..], t1, p2[1..], t2);
      assert p1 == [p1[0]] + p1[1..] && p2 == [p2[0]] + p2[1..];
    }
  }

  ghost predicate WithinLimit(payloads: seq<seq<byte>>) {
    forall i :: 0 <= i < |payloads| ==> |payloads[i]| <= MAX_MSG_LEN
  }

  /** Frames of payloads within the limit read back as those payloads, to the last byte. */
  lemma FlattenReadsBack(payloads: seq<seq<byte>>)
    requires WithinLimit(payloads)
    ensures Accepted(Flatten(payloads)) == payloads && Leftover(Flatten(payloads)) == []
  {
    var s := Flatten(payloads);
    assert s + [] == s;
    AcceptedSplits(s);
    SplitIsUnique(s, payloads, [], Accepted(s), Leftover(s));
  }

  /** A payload that does not decode never costs alignment: the stream delivers what the
      same stream without that frame delivers. */
  lemma BadPayloadKeepsAlignment<M>(decode: seq<byte> -> Option<M>, before: seq<seq<byte>>, bad: seq<byte>,
                                    after: seq<seq<byte>>, tail: seq<byte>)
    requires SplitsInto(Flatten(before + [bad] + after) + tail, before + [bad] + after, tail)
    requires decode(bad).None?
    ensures Decodable(decode, before + [bad] + after) == Decodable(decode, before) + Decodable(decode, after)
    ensures SplitsInto(Flatten(before + after) + tail, before + after, tail)
  {
    DecodableConcat(decode, before + [bad], after);
    assert (before + [bad])[..|before|] == before;
    var all := before + [bad] + after;
    assert forall i :: 0 <= i < |before + after| ==>
        (before + after)[i] == all[if i < |before| then i else i + 1];
  }

  lemma {:induction false} DecodableConcat<M>(decode: seq<byte> -> Option<M>, a: seq<seq<byte>>, b: seq<seq<byte>>)
    ensures Decodable(decode, a + b) == Decodable(decode, a) + Decodable(decode, b)
    decreases |b|
  {
    if b == [] {
      assert a + b == a;
    } else {
      var n := |b| - 1;
      assert (a + b)[..|a + b| - 1] == a + b[..n];
      DecodableConcat(decode, a, b[..n]);
    }
  }
}
