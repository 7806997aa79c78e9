/**
 A client connection as a step system: the application enqueues messages, the send task
 serialises and writes them, bytes travel, and the receive task at the other end reads
 frames and delivers messages. Steps interleave freely, bytes move in any portions, and
 either task may die at any point.
 */
module Connection {
  import opened Wrappers
  import opened Framing

  const CHANNEL_CAPACITY: nat := 256

  /** Serialisation: partial, and inverted by `decode` where it is defined. */
  datatype Codec<!M> = Codec(encode: M -> Option<seq<byte>>, decode: seq<byte> -> Option<M>)

  ghost predicate Lawful<M(!new)>(c: Codec<M>) {
    forall m :: c.encode(m).Some? ==> c.decode(c.encode(m).value) == Some(m)
  }

  /** A payload the receiver reads back as itself or refuses: one whose length fits the header,
      or wraps to a length over the limit. */
  predicate SafeLength(n: nat) {
    n < TWO_32 || n % TWO_32 > MAX_MSG_LEN
  }

  predicate SafeMessage<M>(c: Codec<M>, m: M) {
    match c.encode(m)
    case Some(p) => SafeLength(|p|)
    case None => true
  }

  /**
   `outgoing` is the rest of the frame being written, `wire` the bytes under way, `inbox`
   the bytes the receive task has not parsed yet, `received` its delivery channel and
   `taken` what the application got from it. The last four fields are history: messages
   enqueued, messages the send task is done with, bytes written, payloads parsed.
   */
  datatype Conn<M> = Conn(
    queue: seq<M>, senderUp: bool, outgoing: seq<byte>, wire: seq<byte>,
    inbox: seq<byte>, receiverUp: bool, received: seq<M>, taken: seq<M>,
    enqueued: seq<M>, processed: seq<M>, written: seq<byte>, parsed: seq<seq<byte>>)

  /** `setup`: two empty channels, Hello already in the send queue, both tasks running. */
  function Setup<M>(hello: M): (s: Conn<M>) {
    Conn([hello], true, [], [], [], true, [], [], [hello], [], [], [])
  }

  datatype Step<M> =
    | Enqueue(m: M)
    | Serialise
    | Write(n: nat)
    | SenderDies
    | Transport(n: nat)
    | ReadOne
    | ReceiverDies
    | TryRecv

  predicate Enabled<M>(c: Codec<M>, s: Conn<M>, step: Step<M>) {
    match step
    case Enqueue(_) => s.senderUp && |s.queue| < CHANNEL_CAPACITY
    case Serialise => s.senderUp && s.outgoing == [] && s.queue != []
    case Write(n) => s.senderUp && 0 < n <= |s.outgoing|
    case SenderDies => s.senderUp
    case Transport(n) => 0 < n <= |s.wire|
    case ReadOne =>
      var r := ReadFrame(s.inbox);
      s.receiverUp && !r.Truncated?
      && (r.Payload? && c.decode(r.payload).Some? ==> |s.received| < CHANNEL_CAPACITY)
    case ReceiverDies => s.receiverUp
    case TryRecv => s.received != []
  }

  function Next<M>(c: Codec<M>, s: Conn<M>, step: Step<M>): (n: Conn<M>)
    requires Enabled(c, s, step)
  {
    match step
    case Enqueue(m) => s.(queue := s.queue + [m], enqueued := s.enqueued + [m])
    case Serialise =>
      var m := s.queue[0];
      var frame := match c.encode(m) case Some(p) => Frame(p) case None => [];
      s.(queue := s.queue[1..], processed := s.processed + [m], outgoing := frame)
    case Write(n) =>
      s.(outgoing := s.outgoing[n..], wire := s.wire + s.outgoing[..n], written := s.written + s.outgoing[..n])
    case SenderDies => s.(senderUp := false, outgoing := [])
    case Transport(n) => s.(wire := s.wire[n..], inbox := s.inbox + s.wire[..n])
    case ReadOne =>
      (match ReadFrame(s.inbox)
       case Payload(p, rest) =>
         var d := c.decode(p);
         s.(inbox := rest, parsed := s.parsed + [p],
            received := if d.Some? then s.received + [d.value] else s.received)
       case _ => s.(receiverUp := false))
    case ReceiverDies => s.(receiverUp := false)
    case TryRecv => s.(received := s.received[1..], taken := s.taken + [s.received[0]])
  }

  function Run<M>(c: Codec<M>, s: Conn<M>, steps: seq<Step<M>>): (n: Conn<M>)
    requires EnabledRun(c, s, steps)
    decreases |steps|
  {
    if steps == [] then s else Run(c, Next(c, s, steps[0]), steps[1..])
  }

  predicate EnabledRun<M>(c: Codec<M>, s: Conn<M>, steps: seq<Step<M>>)
    decreases |steps|
  {
    steps == [] || (Enabled(c, s, steps[0]) && EnabledRun(c, Next(c, s, steps[0]), steps[1..]))
  }

  // ----- What should arrive -----

  /** The messages that serialise; the others are logged and dropped. */
  function Serialisable<M>(c: Codec<M>, ms: seq<M>): (r: seq<M>) {
    if ms == [] then []
    else Serialisable(c, ms[..|ms| - 1]) + (if c.encode(ms[|ms| - 1]).Some? then [ms[|ms| - 1]] else [])
  }

  function Payloads<M>(c: Codec<M>, ms: seq<M>): (ps: seq<seq<byte>>) {
    if ms == [] then []
    else
      Payloads(c, ms[..|ms| - 1])
      + (match c.encode(ms[|ms| - 1]) case Some(p) => [p] case None => [])
  }

  function Delivered<M>(s: Conn<M>): (ms: seq<M>) {
    s.taken + s.received
  }

  /** Position of the first message that is not safe, or the number of messages. */
  function FirstUnsafe<M>(c: Codec<M>, ms: seq<M>): (i: nat)
    ensures i <= |ms|
  {
    if ms == [] then 0
    else
      var i := FirstUnsafe(c, ms[..|ms| - 1]);
      if i < |ms| - 1 || !SafeMessage(c, ms[|ms| - 1]) then i else |ms|
  }

  /** The messages before the first one that is not safe. */
  function Before<M>(c: Codec<M>, ms: seq<M>): (r: seq<M>) {
    ms[..FirstUnsafe(c, ms)]
  }

  predicate AllSafe<M>(c: Codec<M>, ms: seq<M>) {
    forall i :: 0 <= i < |ms| ==> SafeMessage(c, ms[i])
  }

  // ----- Invariant -----

  ghost predicate QueueInv<M>(s: Conn<M>) {
    && s.enqueued == s.processed + s.queue
    && |s.queue| <= CHANNEL_CAPACITY && |s.received| <= CHANNEL_CAPACITY
  }

  /** Everything written so far is an initial part of the frames of the processed messages,
      and all of them but the unwritten rest while the send task lives. */
  ghost predicate SendInv<M>(c: Codec<M>, s: Conn<M>) {
    var frames := Flatten(Payloads(c, s.processed));
    && s.written <= frames
    && (s.senderUp ==> s.written + s.outgoing == frames)
    && (!s.senderUp ==> s.outgoing == [])
  }

  /** The reader is in step: it has parsed payloads that were sent, and nothing else. */
  ghost predicate ReceiveInv<M>(c: Codec<M>, s: Conn<M>) {
    && s.written == Flatten(s.parsed) + s.inbox + s.wire
    && s.parsed <= Payloads(c, s.processed)
    && Delivered(s) == Decodable(c.decode, s.parsed)
  }

  /** The reader ran past a message that is not safe, but delivered all messages before it. */
  ghost predicate Passed<M>(c: Codec<M>, s: Conn<M>) {
    && FirstUnsafe(c, s.processed) < |s.processed|
    && Decodable(c.decode, Payloads(c, Before(c, s.processed))) <= Delivered(s)
  }

  ghost predicate Inv<M>(c: Codec<M>, s: Conn<M>) {
    QueueInv(s) && SendInv(c, s) && (ReceiveInv(c, s) || Passed(c, s))
  }

  lemma {:induction false} AllSafeIff<M>(c: Codec<M>, ms: seq<M>)
    ensures FirstUnsafe(c, ms) == |ms| <==> AllSafe(c, ms)
  {
    if ms != [] {
      AllSafeIff(c, ms[..|ms| - 1]);
      assert AllSafe(c, ms) <==> AllSafe(c, ms[..|ms| - 1]) && SafeMessage(c, ms[|ms| - 1]) by {
        assert forall i :: 0 <= i < |ms| - 1 ==> ms[..|ms| - 1][i] == ms[i];
      }
    }
  }

  /** Once a message is not safe, those before it stay what they are. */
  lemma {:induction false} BeforeStays<M>(c: Codec<M>, ms: seq<M>, more: seq<M>)
    requires FirstUnsafe(c, ms) < |ms|
    ensures FirstUnsafe(c, ms + more) == FirstUnsafe(c, ms) && Before(c, ms + more) == Before(c, ms)
    decreases |more|
  {
    if more == [] {
      assert ms + more == ms;
    } else {
      BeforeStays(c, ms, more[..|more| - 1]);
      assert (ms + more)[..|ms + more| - 1] == ms + more[..|more| - 1];
    }
  }

  /** The payloads before the first unsafe message are safe, and the next one is not. */
  lemma {:induction false} PayloadsBefore<M>(c: Codec<M>, ms: seq<M>)
    ensures var early, ps := Payloads(c, Before(c, ms)), Payloads(c, ms);
            && early <= ps && (forall k :: 0 <= k < |early| ==> SafeLength(|early[k]|))
            && (forall k :: 0 <= k < |ps| && !SafeLength(|ps[k]|) ==> |early| <= k)
            && (FirstUnsafe(c, ms) == |ms| ==> early == ps)
            && (FirstUnsafe(c, ms) < |ms| ==> |early| < |ps| && !SafeLength(|ps[|early|]|))
  {
    if ms != [] {
      var front, m := ms[..|ms| - 1], ms[|ms| - 1];
      PayloadsBefore(c, front);
      assert ms == front + [m];
      PayloadsSnoc(c, front, m);
      if FirstUnsafe(c, ms) < |ms| {
        assert Before(c, ms) == Before(c, front);
      } else {
        assert Before(c, ms) == ms && Before(c, front) == front;
      }
    }
  }

  lemma PayloadsSnoc<M>(c: Codec<M>, ms: seq<M>, m: M)
    ensures Payloads(c, ms + [m]) == Payloads(c, ms) + (match c.encode(m) case Some(p) => [p] case None => [])
    ensures Serialisable(c, ms + [m]) == Serialisable(c, ms) + (if c.encode(m).Some? then [m] else [])
  {
    assert (ms + [m])[..|ms|] == ms;
  }

  /** Frames that arrive intact: the next payload read is the next payload sent. */
  lemma NextPayload(ps: seq<seq<byte>>, parsed: seq<seq<byte>>, inbox: seq<byte>)
    requires parsed <= ps && Flatten(parsed) + inbox <= Flatten(ps)
    requires |parsed| < |ps| ==> SafeLength(|ps[|parsed|]|)
    requires ReadFrame(inbox).Payload?
    ensures |parsed| < |ps| && ReadFrame(inbox).payload == ps[|parsed|]
  {
    var todo := ps[|parsed|..];
    assert ps == parsed + todo;
    FlattenConcat(parsed, todo);
    PrefixTail(Flatten(parsed), inbox, Flatten(todo));
    if todo != [] {
      assert todo[0] == ps[|parsed|];
      FirstOfFrames(todo[0], Flatten(todo[1..]), inbox);
    }
  }

  /** A reader that finds a payload at the start of a safe frame finds its payload. */
  lemma FirstOfFrames(p: seq<byte>, rest: seq<byte>, inbox: seq<byte>)
    requires inbox <= Frame(p) + rest && ReadFrame(inbox).Payload? && SafeLength(|p|)
    ensures ReadFrame(inbox).payload == p
  {
    var s := Frame(p) + rest;
    HeaderIsTruthful(p, rest);
    assert FromLe32(inbox) == FromLe32(s) == |p|;
    assert inbox[4..4 + |p|] == s[4..4 + |p|] == p;
  }

  lemma PrefixTail<T>(a: seq<T>, b: seq<T>, t: seq<T>)
    requires a + b <= a + t
    ensures b <= t
  {
    assert forall i :: 0 <= i < |b| ==> b[i] == (a + b)[|a| + i] == (a + t)[|a| + i] == t[i];
  }

  /** Serialising one more message appends its frame, or nothing, to what is to be written. */
  lemma FramesSnoc<M>(c: Codec<M>, ms: seq<M>, m: M)
    ensures Payloads(c, ms) <= Payloads(c, ms + [m])
    ensures Flatten(Payloads(c, ms + [m])) ==
            Flatten(Payloads(c, ms)) + (match c.encode(m) case Some(p) => Frame(p) case None => [])
  {
    PayloadsSnoc(c, ms, m);
    match c.encode(m)
    case Some(p) =>
      FlattenConcat(Payloads(c, ms), [p]);
      assert Flatten([p]) == Frame(p) + Flatten([p][1..]) == Frame(p);
    case None =>
      assert Payloads(c, ms + [m]) == Payloads(c, ms);
  }

  lemma SerialiseSends<M>(c: Codec<M>, s: Conn<M>)
    requires Inv(c, s) && Enabled(c, s, Serialise)
    ensures QueueInv(Next(c, s, Serialise)) && SendInv(c, Next(c, s, Serialise))
  {
    var n := Next(c, s, Serialise);
    FramesSnoc(c, s.processed, s.queue[0]);
    assert n.processed + n.queue == s.processed + s.queue;
    assert s.written == Flatten(Payloads(c, s.processed));
  }

  lemma SerialiseReceives<M>(c: Codec<M>, s: Conn<M>)
    requires (ReceiveInv(c, s) || Passed(c, s)) && Enabled(c, s, Serialise)
    ensures var n := Next(c, s, Serialise); ReceiveInv(c, n) || Passed(c, n)
  {
    if ReceiveInv(c, s) {
      FramesSnoc(c, s.processed, s.queue[0]);
      PrefixTrans(s.parsed, Payloads(c, s.processed), Payloads(c, s.processed + [s.queue[0]]));
    } else {
      BeforeStays(c, s.processed, [s.queue[0]]);
    }
  }

  lemma SerialiseKeeps<M>(c: Codec<M>, s: Conn<M>)
    requires Inv(c, s) && Enabled(c, s, Serialise)
    ensures Inv(c, Next(c, s, Serialise))
  {
    SerialiseSends(c, s);
    SerialiseReceives(c, s);
  }

  lemma PrefixTrans<T>(a: seq<T>, b: seq<T>, d: seq<T>)
    requires a <= b && b <= d
    ensures a <= d
  {
  }

  lemma WriteKeeps<M>(c: Codec<M>, s: Conn<M>, k: nat)
    requires Inv(c, s) && Enabled(c, s, Write(k))
    ensures Inv(c, Next(c, s, Write(k)))
  {
    var n := Next(c, s, Write(k));
    BytesMove([], s.written, s.outgoing, k);
    assert n.written + n.outgoing == s.written + s.outgoing;
    BytesJoin(Flatten(s.parsed), s.inbox, s.wire, s.outgoing[..k]);
    assert Delivered(n) == Delivered(s);
  }

  lemma BytesJoin(a: seq<byte>, b: seq<byte>, w: seq<byte>, more: seq<byte>)
    ensures (a + b + w) + more == a + b + (w + more)
  {
  }

  /** One more payload parsed is one more payload of those sent. */
  lemma ParseOne(ps: seq<seq<byte>>, parsed: seq<seq<byte>>, inbox: seq<byte>, wire: seq<byte>, written: seq<byte>)
    requires written == Flatten(parsed) + inbox + wire && written <= Flatten(ps) && parsed <= ps
    requires |parsed| < |ps| ==> SafeLength(|ps[|parsed|]|)
    requires ReadFrame(inbox).Payload?
    ensures var r := ReadFrame(inbox);
            parsed + [r.payload] <= ps && written == Flatten(parsed + [r.payload]) + r.rest + wire
  {
    assert Flatten(parsed) + inbox <= written;
    NextPayload(ps, parsed, inbox);
    ParseTakes(parsed, inbox, wire);
  }

  lemma ParseTakes(parsed: seq<seq<byte>>, inbox: seq<byte>, wire: seq<byte>)
    requires ReadFrame(inbox).Payload?
    ensures var r := ReadFrame(inbox);
            Flatten(parsed) + inbox + wire == Flatten(parsed + [r.payload]) + r.rest + wire
  {
    var r := ReadFrame(inbox);
    TakeFrame(inbox, r.payload);
    FlattenSnoc(parsed, r.payload);
    assert Flatten(parsed) + (Frame(r.payload) + r.rest) == (Flatten(parsed) + Frame(r.payload)) + r.rest;
  }

  /** A frame read in step is the next one sent, if that is safe. */
  lemma ReadSafeKeeps<M>(c: Codec<M>, s: Conn<M>)
    requires SendInv(c, s) && ReceiveInv(c, s) && Enabled(c, s, ReadOne) && ReadFrame(s.inbox).Payload?
    requires var ps := Payloads(c, s.processed); |s.parsed| < |ps| ==> SafeLength(|ps[|s.parsed|]|)
    ensures ReceiveInv(c, Next(c, s, ReadOne))
  {
    var n, p := Next(c, s, ReadOne), ReadFrame(s.inbox).payload;
    ParseOne(Payloads(c, s.processed), s.parsed, s.inbox, s.wire, s.written);
    DecodableSnoc(c.decode, s.parsed, p);
    assert Delivered(n) == Decodable(c.decode, n.parsed);
  }

  /** When the next payload sent is not safe, all messages before it are already delivered. */
  lemma UnsafeIsNext<M>(c: Codec<M>, s: Conn<M>)
    requires ReceiveInv(c, s)
    requires var ps := Payloads(c, s.processed); |s.parsed| < |ps| && !SafeLength(|ps[|s.parsed|]|)
    ensures Passed(c, s)
  {
    var early, ps := Payloads(c, Before(c, s.processed)), Payloads(c, s.processed);
    PayloadsBefore(c, s.processed);
    assert early <= s.parsed;
    DecodablePrefix(c.decode, early, s.parsed);
  }

  lemma PassedStays<M>(c: Codec<M>, s: Conn<M>, n: Conn<M>)
    requires Passed(c, s) && n.processed == s.processed && Delivered(s) <= Delivered(n)
    ensures Passed(c, n)
  {
  }

  lemma ReadOneKeeps<M>(c: Codec<M>, s: Conn<M>)
    requires Inv(c, s) && Enabled(c, s, ReadOne)
    ensures Inv(c, Next(c, s, ReadOne))
  {
    var n, ps := Next(c, s, ReadOne), Payloads(c, s.processed);
    assert Delivered(s) <= Delivered(n);
    if Passed(c, s) {
      PassedStays(c, s, n);
    } else if ReadFrame(s.inbox).Payload? {
      if |s.parsed| < |ps| && !SafeLength(|ps[|s.parsed|]|) {
        UnsafeIsNext(c, s);
      } else {
        ReadSafeKeeps(c, s);
      }
    }
  }

  /** Bytes that move from one part of the stream to the next leave the stream as it is. */
  lemma BytesMove(a: seq<byte>, b: seq<byte>, w: seq<byte>, k: nat)
    requires k <= |w|
    ensures a + b + w == a + (b + w[..k]) + w[k..]
  {
    assert w == w[..k] + w[k..];
  }

  lemma TransportKeeps<M>(c: Codec<M>, s: Conn<M>, k: nat)
    requires Inv(c, s) && Enabled(c, s, Transport(k))
    ensures Inv(c, Next(c, s, Transport(k)))
  {
    BytesMove(Flatten(s.parsed), s.inbox, s.wire, k);
    var n := Next(c, s, Transport(k));
    assert Delivered(n) == Delivered(s);
  }

  lemma TryRecvKeeps<M>(c: Codec<M>, s: Conn<M>)
    requires Inv(c, s) && Enabled(c, s, TryRecv)
    ensures Inv(c, Next(c, s, TryRecv))
  {
    assert Delivered(Next(c, s, TryRecv)) == Delivered(s);
  }

  lemma EnqueueKeeps<M>(c: Codec<M>, s: Conn<M>, m: M)
    requires Inv(c, s) && Enabled(c, s, Enqueue(m))
    ensures Inv(c, Next(c, s, Enqueue(m)))
  {
  }

  lemma DeathKeeps<M>(c: Codec<M>, s: Conn<M>, step: Step<M>)
    requires Inv(c, s) && Enabled(c, s, step) && (step == SenderDies || step == ReceiverDies)
    ensures Inv(c, Next(c, s, step))
  {
  }

  lemma StepKeeps<M>(c: Codec<M>, s: Conn<M>, step: Step<M>)
    requires Inv(c, s) && Enabled(c, s, step)
    ensures Inv(c, Next(c, s, step))
  {
    match step
    case Enqueue(m) => EnqueueKeeps(c, s, m);
    case Serialise => SerialiseKeeps(c, s);
    case Write(k) => WriteKeeps(c, s, k);
    case SenderDies => DeathKeeps(c, s, step);
    case Transport(k) => TransportKeeps(c, s, k);
    case ReadOne => ReadOneKeeps(c, s);
    case ReceiverDies => DeathKeeps(c, s, step);
    case TryRecv => TryRecvKeeps(c, s);
  }

  lemma {:induction false} RunKeeps<M>(c: Codec<M>, s: Conn<M>, steps: seq<Step<M>>)
    requires Inv(c, s) && EnabledRun(c, s, steps)
    ensures Inv(c, Run(c, s, steps))
    decreases |steps|
  {
    if steps != [] {
      StepKeeps(c, s, steps[0]);
      RunKeeps(c, Next(c, s, steps[0]), steps[1..]);
    }
  }

  // ----- Main results -----

  lemma {:induction false} DecodesBack<M(!new)>(c: Codec<M>, ms: seq<M>)
    requires Lawful(c)
    ensures Decodable(c.decode, Payloads(c, ms)) == Serialisable(c, ms)
  {
    if ms != [] {
      var front, m := ms[..|ms| - 1], ms[|ms| - 1];
      DecodesBack(c, front);
      match c.encode(m) {
        case Some(p) => DecodableSnoc(c.decode, Payloads(c, front), p);
        case None => assert Payloads(c, ms) == Payloads(c, front);
      }
    }
  }

  lemma {:induction false} SerialisableMonotone<M>(c: Codec<M>, a: seq<M>, b: seq<M>)
    ensures Serialisable(c, a) <= Serialisable(c, a + b)
    decreases |b|
  {
    if b == [] {
      assert a + b == a;
    } else {
      assert (a + b)[..|a + b| - 1] == a + b[..|b| - 1];
      SerialisableMonotone(c, a, b[..|b| - 1]);
    }
  }

  lemma DecodablePrefix<M>(decode: seq<byte> -> Option<M>, a: seq<seq<byte>>, b: seq<seq<byte>>)
    requires a <= b
    ensures Decodable(decode, a) <= Decodable(decode, b)
  {
    assert b == a + b[|a|..];
    DecodableConcat(decode, a, b[|a|..]);
  }

  /** In every run, with no bound on any message: up to the first unsafe message enqueued, what
      is delivered is what was sent, in order. Either the messages delivered are an initial
      part of the serialisable ones before it, or those come first. */
  lemma DeliveredUpToUnsafe<M(!new)>(c: Codec<M>, hello: M, steps: seq<Step<M>>)
    requires Lawful(c) && EnabledRun(c, Setup(hello), steps)
    ensures var s := Run(c, Setup(hello), steps);
            var good := Serialisable(c, Before(c, s.enqueued));
            Delivered(s) <= good || good <= Delivered(s)
  {
    SetupInv(c, hello);
    RunKeeps(c, Setup(hello), steps);
    var s := Run(c, Setup(hello), steps);
    if Passed(c, s) {
      BeforeStays(c, s.processed, s.queue);
      DecodesBack(c, Before(c, s.processed));
    } else {
      InStepIsPrefix(c, s);
      assert s.enqueued == Before(c, s.enqueued) + s.enqueued[FirstUnsafe(c, s.enqueued)..];
      SerialisableMonotone(c, Before(c, s.enqueued), s.enqueued[FirstUnsafe(c, s.enqueued)..]);
    }
  }

  lemma InStepIsPrefix<M(!new)>(c: Codec<M>, s: Conn<M>)
    requires Lawful(c) && QueueInv(s) && ReceiveInv(c, s)
    ensures Delivered(s) <= Serialisable(c, s.enqueued)
  {
    DecodesBack(c, s.processed);
    DecodablePrefix(c.decode, s.parsed, Payloads(c, s.processed));
    SerialisableMonotone(c, s.processed, s.queue);
  }

  /** While all messages enqueued are safe the reader stays in step. */
  lemma SafeStaysInStep<M(!new)>(c: Codec<M>, hello: M, steps: seq<Step<M>>)
    requires Lawful(c) && EnabledRun(c, Setup(hello), steps) && AllSafe(c, Run(c, Setup(hello), steps).enqueued)
    ensures var s := Run(c, Setup(hello), steps);
            QueueInv(s) && SendInv(c, s) && ReceiveInv(c, s) && AllSafe(c, s.processed)
  {
    SetupInv(c, hello);
    RunKeeps(c, Setup(hello), steps);
    var s := Run(c, Setup(hello), steps);
    assert AllSafe(c, s.processed) by {
      assert forall i :: 0 <= i < |s.processed| ==> s.processed[i] == s.enqueued[i];
    }
    AllSafeIff(c, s.processed);
  }

  /** In every run that enqueues only safe messages, what has been delivered is an initial part of
      the serialisable messages enqueued, in order, Hello first. */
  lemma DeliveredIsPrefix<M(!new)>(c: Codec<M>, hello: M, steps: seq<Step<M>>)
    requires Lawful(c) && EnabledRun(c, Setup(hello), steps) && AllSafe(c, Run(c, Setup(hello), steps).enqueued)
    ensures var s := Run(c, Setup(hello), steps); Delivered(s) <= Serialisable(c, s.enqueued)
  {
    SafeStaysInStep(c, hello, steps);
    InStepIsPrefix(c, Run(c, Setup(hello), steps));
  }

  lemma SetupInv<M>(c: Codec<M>, hello: M)
    ensures Inv(c, Setup(hello))
  {
    assert Payloads(c, []) == [] && Flatten([]) == [];
  }

  /** A run of safe messages that has come to rest with the send task alive has delivered
      everything. */
  lemma QuiescentDeliversAll<M(!new)>(c: Codec<M>, hello: M, steps: seq<Step<M>>)
    requires Lawful(c) && EnabledRun(c, Setup(hello), steps) && AllSafe(c, Run(c, Setup(hello), steps).enqueued)
    requires var s := Run(c, Setup(hello), steps);
             s.senderUp && s.queue == [] && s.outgoing == [] && s.wire == [] && ReadFrame(s.inbox).Truncated?
    ensures var s := Run(c, Setup(hello), steps); Delivered(s) == Serialisable(c, s.enqueued)
  {
    SafeStaysInStep(c, hello, steps);
    var s := Run(c, Setup(hello), steps);
    assert s.enqueued == s.processed;
    AllSafeIff(c, s.processed);
    PayloadsBefore(c, s.processed);
    NothingLeft(Payloads(c, s.processed), s.parsed, s.inbox);
    DecodesBack(c, s.processed);
  }

  /** Whole frames of safe payloads are never cut short. */
  lemma NothingLeft(ps: seq<seq<byte>>, parsed: seq<seq<byte>>, inbox: seq<byte>)
    requires parsed <= ps && Flatten(ps) == Flatten(parsed) + inbox && ReadFrame(inbox).Truncated?
    requires forall k :: 0 <= k < |ps| ==> SafeLength(|ps[k]|)
    ensures parsed == ps
  {
    var todo := ps[|parsed|..];
    assert ps == parsed + todo;
    FlattenConcat(parsed, todo);
    assert inbox == (Flatten(parsed) + inbox)[|Flatten(parsed)|..] == Flatten(todo);
    if todo != [] {
      assert todo[0] == ps[|parsed|];
      HeaderIsTruthful(todo[0], Flatten(todo[1..]));
    }
  }

  /** The first frame on the wire is Hello's: at every point of every run the bytes written
      are an initial part of that frame, or begin with all of it. */
  lemma HelloComesFirst<M>(c: Codec<M>, hello: M, steps: seq<Step<M>>)
    requires c.encode(hello).Some? && EnabledRun(c, Setup(hello), steps)
    ensures var s := Run(c, Setup(hello), steps);
            var frame := Frame(c.encode(hello).value);
            s.written <= frame || frame <= s.written
  {
    SetupInv(c, hello);
    RunKeeps(c, Setup(hello), steps);
    EnqueuedKeepsHello(c, Setup(hello), steps);
    var s := Run(c, Setup(hello), steps);
    if s.processed != [] {
      assert s.processed[0] == s.enqueued[0] == hello;
      FirstPayload(c, s.processed);
      var ps := Payloads(c, s.processed);
      assert Flatten(ps) == Frame(ps[0]) + Flatten(ps[1..]);
    } else {
      assert Flatten(Payloads(c, s.processed)) == [];
    }
  }

  lemma {:induction false} EnqueuedKeepsHello<M>(c: Codec<M>, s: Conn<M>, steps: seq<Step<M>>)
    requires EnabledRun(c, s, steps) && s.enqueued != []
    ensures Run(c, s, steps).enqueued != [] && Run(c, s, steps).enqueued[0] == s.enqueued[0]
    decreases |steps|
  {
    if steps != [] {
      EnqueuedKeepsHello(c, Next(c, s, steps[0]), steps[1..]);
    }
  }

  lemma {:induction false} FirstPayload<M>(c: Codec<M>, ms: seq<M>)
    requires ms != [] && c.encode(ms[0]).Some?
    ensures Payloads(c, ms) != [] && Payloads(c, ms)[0] == c.encode(ms[0]).value
  {
    if |ms| > 1 {
      FirstPayload(c, ms[..|ms| - 1]);
    }
  }

  // ----- Where the promise ends -----

  function Zeros(n: nat): (z: seq<byte>) {
    seq(n, _ => 0)
  }

  /** Serialises `true` to `n` zeros and `false` to as many as the header says of `n`. */
  function HugeCodec(n: nat): (c: Codec<bool>) {
    Codec((m: bool) => Some(if m then Zeros(n) else Zeros(n % TWO_32)),
          (p: seq<byte>) => if |p| == n then Some(true) else if |p| == n % TWO_32 then Some(false) else None)
  }

  /** Every length that is not safe can fail: the header wraps to an accepted length, and the
      receiver is handed a message nobody sent. */
  lemma UnsafeLengthBreaksPrefix(n: nat)
    requires !SafeLength(n)
    ensures var c := HugeCodec(n);
            var steps := [Serialise, Write(n + 4), Transport(n + 4), ReadOne];
            && Lawful(c)
            && EnabledRun(c, Setup(true), steps)
            && !(Delivered(Run(c, Setup(true), steps)) <= Serialisable(c, Run(c, Setup(true), steps).enqueued))
  {
    var c, z := HugeCodec(n), Zeros(n);
    assert n % TWO_32 < n && c.encode(true) == Some(z) && c.encode(false) == Some(Zeros(n % TWO_32));
    var s0 := Setup(true);
    var s1 := Next(c, s0, Serialise);
    assert s1.outgoing == Frame(z) && |Frame(z)| == n + 4;
    var s2 := Next(c, s1, Write(n + 4));
    assert s2.wire == Frame(z);
    var s3 := Next(c, s2, Transport(n + 4));
    assert s3.inbox == Frame(z);
    WrappedRead(n);
    var s4 := Next(c, s3, ReadOne);
    assert Delivered(s4) == [false];
    RunFour(c, s0, Serialise, Write(n + 4), Transport(n + 4), ReadOne);
    assert Serialisable(c, [true]) == Serialisable(c, [true][..0]) + [true] == [true];
  }

  lemma WrappedRead(n: nat)
    requires !SafeLength(n)
    ensures var r := ReadFrame(Frame(Zeros(n))); r.Payload? && |r.payload| == n % TWO_32
  {
    var z := Zeros(n);
    assert Frame(z) + [] == Frame(z);
    HeaderIsTruthful(z, []);
  }

  lemma RunFour<M>(c: Codec<M>, s: Conn<M>, a: Step<M>, b: Step<M>, d: Step<M>, e: Step<M>)
    requires Enabled(c, s, a) && Enabled(c, Next(c, s, a), b) && Enabled(c, Next(c, Next(c, s, a), b), d)
    requires Enabled(c, Next(c, Next(c, Next(c, s, a), b), d), e)
    ensures EnabledRun(c, s, [a, b, d, e])
    ensures Run(c, s, [a, b, d, e]) == Next(c, Next(c, Next(c, Next(c, s, a), b), d), e)
  {
    RunCons(c, s, a, [b, d, e]);
    RunCons(c, Next(c, s, a), b, [d, e]);
    RunCons(c, Next(c, Next(c, s, a), b), d, [e]);
    RunCons(c, Next(c, Next(c, Next(c, s, a), b), d), e, []);
    assert [a] + [b, d, e] == [a, b, d, e] && [b] + [d, e] == [b, d, e] && [d] + [e] == [d, e] && [e] + [] == [e];
  }

  lemma RunCons<M>(c: Codec<M>, s: Conn<M>, first: Step<M>, rest: seq<Step<M>>)
    requires Enabled(c, s, first)
    ensures EnabledRun(c, s, [first] + rest) <==> EnabledRun(c, Next(c, s, first), rest)
    ensures EnabledRun(c, s, [first] + rest) ==> Run(c, s, [first] + rest) == Run(c, Next(c, s, first), rest)
  {
    assert ([first] + rest)[1..] == rest;
  }

  // ----- The send loop on a closed queue -----

  /** The send task drains its channel and writes one frame per serialisable message; what
      it wrote is read back as exactly those messages, provided all are within the limit. */
  method SendLoop<M(!new)>(messages: seq<M>, c: Codec<M>) returns (wire: seq<byte>)
    ensures wire == Flatten(Payloads(c, messages))
    ensures Lawful(c) && WithinLimit(Payloads(c, messages)) ==>
              Decodable(c.decode, Accepted(wire)) == Serialisable(c, messages) && Leftover(wire) == []
  {
    wire := [];
    assert messages[..0] == [];
    for i := 0 to |messages|
      invariant wire == Flatten(Payloads(c, messages[..i]))
    {
      assert messages[..i + 1] == messages[..i] + [messages[i]];
      FramesSnoc(c, messages[..i], messages[i]);
      match c.encode(messages[i]) {
        case Some(payload) =>
          wire := wire + ToLe32(|payload|);
          wire := wire + payload;
        case None =>
      }
    }
    assert messages[..|messages|] == messages;
    if Lawful(c) && WithinLimit(Payloads(c, messages)) {
      FlattenReadsBack(Payloads(c, messages));
      DecodesBack(c, messages);
    }
  }
}
