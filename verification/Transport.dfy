/**
 Framing on the connection to the search service (lib/src/oef_search_client.cpp, `send_` and
 `receive_`; lib/src/serialization.cpp).

 A message is two sizes of four bytes each, most significant byte first, then the header and
 the payload. Sizes travel as 32-bit numbers, and the receiver adds the two in 32 bits.
 */
module Transport {
  import opened Common

  const WORD := 0x1_0000_0000

  // ---- Sizes ----------------------------------------------------------------------------

  /** `serialize(htonl(size))`: the low 32 bits of the size in network order. */
  function SizeBytes(size: nat): (r: Buffer)
    ensures |r| == 4
  {
    var n := size % WORD;
    var n1 := n / 256;
    var n2 := n1 / 256;
    [n2 / 256, n2 % 256, n1 % 256, n % 256]
  }

  /** `ntohl` of four bytes. */
  function SizeOf(b: Buffer): (r: nat)
    requires |b| == 4
    ensures r < WORD
  {
    var w: nat, x: nat, y: nat, z: nat := b[0], b[1], b[2], b[3];
    256 * (256 * (256 * w + x) + y) + z
  }

  lemma SizeRoundTrip(size: nat)
    ensures SizeOf(SizeBytes(size)) == size % WORD
  {
    var n := size % WORD;
    var n1 := n / 256;
    var n2 := n1 / 256;
    assert n == 256 * n1 + n % 256 && n1 == 256 * n2 + n1 % 256;
    assert n2 == 256 * (n2 / 256) + n2 % 256;
  }

  /** The bytes are the digits of the size to the base 256, the most significant first. */
  lemma NetworkOrder(size: nat)
    ensures var b := SizeBytes(size);
            size % WORD ==
            b[0] as int * 0x100_0000 + b[1] as int * 0x1_0000 + b[2] as int * 0x100 + b[3]
  {
    SizeRoundTrip(size);
    hide SizeBytes;
  }

  // ---- Sending --------------------------------------------------------------------------

  datatype Message = Message(header: Buffer, payload: Buffer)

  function Frame(m: Message): Buffer {
    SizeBytes(|m.header|) + SizeBytes(|m.payload|) + m.header + m.payload
  }

  /** Where everything is in a frame: the header's size, the payload's, the header, the payload. */
  lemma FrameLayout(m: Message)
    ensures var f, h, p := Frame(m), |m.header|, |m.payload|;
            && |f| == 8 + h + p
            && f[..4] == SizeBytes(h) && f[4..8] == SizeBytes(p)
            && f[8..8 + h] == m.header && f[8 + h..] == m.payload
  {
    hide SizeBytes;
  }

  function Stream(ms: seq<Message>): Buffer {
    if ms == [] then [] else Frame(ms[0]) + Stream(ms[1..])
  }

  /** `send_` and the gathering write under it: what one message puts on the wire. */
  method Send(header: Buffer, payload: Buffer) returns (written: Buffer)
    ensures written == Frame(Message(header, payload))
  {
    var buffers: seq<Buffer> := [];
    var nbytes: seq<nat> := [];
    buffers := buffers + [SizeBytes(|header|)];
    buffers := buffers + [SizeBytes(|payload|)];
    nbytes := nbytes + [4];
    nbytes := nbytes + [4];
    buffers := buffers + [header];
    buffers := buffers + [payload];
    nbytes := nbytes + [|header|];
    nbytes := nbytes + [|payload|];
    written := Gather(buffers, nbytes);
  }

  method Gather(buffers: seq<Buffer>, nbytes: seq<nat>) returns (written: Buffer)
    requires |buffers| == |nbytes| == 4
    requires forall i | 0 <= i < 4 :: nbytes[i] == |buffers[i]|
    ensures written == buffers[0] + buffers[1] + buffers[2] + buffers[3]
  {
    written := [];
    for i := 0 to |buffers|
      invariant written == Flatten(buffers[..i])
    {
      FlattenAppend(buffers[..i], [buffers[i]]);
      assert buffers[..i + 1] == buffers[..i] + [buffers[i]];
      assert Flatten([buffers[i]]) == buffers[i];
      written := written + buffers[i][..nbytes[i]];
    }
    assert buffers[..4] == [buffers[0], buffers[1], buffers[2], buffers[3]];
    FlattenFour(buffers[0], buffers[1], buffers[2], buffers[3]);
  }

  lemma FlattenFour(a: Buffer, b: Buffer, c: Buffer, d: Buffer)
    ensures Flatten([a, b, c, d]) == a + b + c + d
  {
    FlattenAppend([a, b], [c, d]);
    FlattenAppend([a], [b]);
    FlattenAppend([c], [d]);
    assert [a, b] + [c, d] == [a, b, c, d] && [a] + [b] == [a, b] && [c] + [d] == [c, d];
    assert (a + b) + (c + d) == a + b + c + d;
  }

  // ---- Receiving ------------------------------------------------------------------------

  /** What the response loop is handed. */
  datatype Received = Received(header: Buffer, payload: Option<Buffer>)

  /** One round of `receive_` on the bytes that are still to come. */
  datatype Reading =
    | Delivered(message: Received, rest: Buffer)
    | Closed       // the stream ended in front of the sizes or inside the message
    | BadHeader    // the header does not parse: the loop is not armed again
    | Overrun      // the sizes add up to more than 32 bits: the copies pass the buffer's end

  /** `parses` says which headers the message library accepts. */
  function ReceiveOne(parses: Buffer -> bool, stream: Buffer): (r: Reading)
    ensures r.Delivered? ==> |r.rest| + 8 <= |stream|
  {
    if |stream| < 8 then Closed else
      var headerSize, payloadSize := SizeOf(stream[..4]), SizeOf(stream[4..8]);
      var total := (headerSize + payloadSize) % WORD;
      if |stream| < 8 + total then Closed
      else if total < headerSize + payloadSize then Overrun
      else
        var header := stream[8..8 + headerSize];
        if !parses(header) then BadHeader
        else
          var payload := stream[8 + headerSize..8 + total];
          Delivered(Received(header, if payloadSize == 0 then None else Some(payload)), stream[8 + total..])
  }

  /** Everything `handle_messages` delivers until it stops. */
  function ReceiveAll(parses: Buffer -> bool, stream: Buffer): seq<Received>
    decreases |stream|
  {
    match ReceiveOne(parses, stream)
    case Delivered(m, rest) => [m] + ReceiveAll(parses, rest)
    case _ => []
  }

  /** The response loop over the bytes that arrive until the connection ends. */
  method HandleMessages(parses: Buffer -> bool, stream: Buffer) returns (log: seq<Received>)
    ensures log == ReceiveAll(parses, stream)
  {
    log := [];
    var rest := stream;
    var next := ReceiveOne(parses, rest);
    while next.Delivered?
      invariant next == ReceiveOne(parses, rest)
      invariant ReceiveAll(parses, stream) == log + ReceiveAll(parses, rest)
      decreases |rest|
    {
      log := log + [next.message];
      rest := next.rest;
      next := ReceiveOne(parses, rest);
    }
  }

  // ---- The round trip -------------------------------------------------------------------

  /** An empty payload comes back as an absent one. */
  function AsReceived(m: Message): Received {
    Received(m.header, if m.payload == [] then None else Some(m.payload))
  }

  /** What the receiver makes of the sizes in front of a frame. */
  lemma FrameSizes(m: Message, rest: Buffer)
    ensures var s := Frame(m) + rest;
            && |s| == 8 + |m.header| + |m.payload| + |rest|
            && SizeOf(s[..4]) == |m.header| % WORD
            && SizeOf(s[4..8]) == |m.payload| % WORD
  {
    hide SizeBytes, SizeOf;
    var s := Frame(m) + rest;
    assert s[..4] == SizeBytes(|m.header|) && s[4..8] == SizeBytes(|m.payload|);
    SizeRoundTrip(|m.header|);
    SizeRoundTrip(|m.payload|);
  }

  lemma FrameParts(m: Message, rest: Buffer)
    ensures var s, h, p := Frame(m) + rest, |m.header|, |m.payload|;
            && |s| == 8 + h + p + |rest|
            && s[8..8 + h] == m.header && s[8 + h..8 + h + p] == m.payload && s[8 + h + p..] == rest
  {
    hide SizeBytes;
  }

  /**
   One message, whatever follows it: it is read back with the right boundaries exactly when
   its two parts together stay below 2^32 bytes and its header parses.
   */
  lemma FrameRoundTrip(parses: Buffer -> bool, m: Message, rest: Buffer)
    ensures ReceiveOne(parses, Frame(m) + rest) == Delivered(AsReceived(m), rest)
            <==> |m.header| + |m.payload| < WORD && parses(m.header)
  {
    FrameSizes(m, rest);
    FrameParts(m, rest);
    hide SizeOf, Frame;
    var h, p := |m.header|, |m.payload|;
    if h + p < WORD {
      SmallSizes(h, p);
    } else {
      TooLong(parses, m, rest);
    }
  }

  /** A message of 2^32 bytes or more is never read back as it was. */
  lemma TooLong(parses: Buffer -> bool, m: Message, rest: Buffer)
    requires |m.header| + |m.payload| >= WORD
    ensures ReceiveOne(parses, Frame(m) + rest) != Delivered(AsReceived(m), rest)
  {
    FrameSizes(m, rest);
    hide SizeOf, Frame;
    var r := ReceiveOne(parses, Frame(m) + rest);
    if r.Delivered? {
      assert |r.message.header| == |m.header| % WORD;
      assert |r.rest| == |m.header| + |m.payload| + |rest| - |m.header| % WORD - |m.payload| % WORD;
    }
  }

  predicate Sendable(parses: Buffer -> bool, m: Message) {
    |m.header| + |m.payload| < WORD && parses(m.header)
  }

  function AllReceived(ms: seq<Message>): seq<Received> {
    if ms == [] then [] else [AsReceived(ms[0])] + AllReceived(ms[1..])
  }

  /** Any sequence of messages written back to back is read as the same sequence. */
  lemma {:induction false} StreamRoundTrip(parses: Buffer -> bool, ms: seq<Message>)
    requires forall i | 0 <= i < |ms| :: Sendable(parses, ms[i])
    ensures ReceiveAll(parses, Stream(ms)) == AllReceived(ms)
  {
    if ms != [] {
      FrameRoundTrip(parses, ms[0], Stream(ms[1..]));
      assert Sendable(parses, ms[0]);
      StreamRoundTrip(parses, ms[1..]);
    }
  }

  /** A message cut short is not delivered at all. */
  lemma CutFrame(parses: Buffer -> bool, m: Message, n: nat)
    requires |m.header| + |m.payload| < WORD && n < |Frame(m)|
    ensures ReceiveOne(parses, Frame(m)[..n]) == Closed
  {
    hide SizeOf, Frame;
    FrameSizes(m, []);
    assert Frame(m) + [] == Frame(m);
    var s := Frame(m)[..n];
    if n >= 8 {
      assert s[..4] == Frame(m)[..4] && s[4..8] == Frame(m)[4..8];
      SmallSizes(|m.header|, |m.payload|);
    }
  }

  lemma SmallSizes(h: nat, p: nat)
    requires h + p < WORD
    ensures h % WORD == h && p % WORD == p && (h + p) % WORD == h + p
  {
  }

  lemma NothingArrives(parses: Buffer -> bool)
    ensures ReceiveOne(parses, []) == Closed
  {
  }

  /** When the connection ends early, exactly the messages that arrived whole are delivered. */
  lemma {:induction false} EarlyEnd(parses: Buffer -> bool, ms: seq<Message>, n: nat) returns (whole: nat)
    requires forall i | 0 <= i < |ms| :: Sendable(parses, ms[i])
    requires n <= |Stream(ms)|
    ensures whole <= |ms| && |Stream(ms[..whole])| <= n
    ensures whole < |ms| ==> n < |Stream(ms[..whole])| + |Frame(ms[whole])|
    ensures ReceiveAll(parses, Stream(ms)[..n]) == AllReceived(ms[..whole])
  {
    hide ReceiveOne, Frame, AsReceived;
    if ms == [] {
      assert Stream(ms)[..n] == [];
      NothingArrives(parses);
      return 0;
    }
    var f := |Frame(ms[0])|;
    assert Sendable(parses, ms[0]);
    if n < f {
      assert Stream(ms)[..n] == Frame(ms[0])[..n];
      CutFrame(parses, ms[0], n);
      return 0;
    }
    var rest := Stream(ms[1..])[..n - f];
    assert Stream(ms)[..n] == Frame(ms[0]) + rest;
    FrameRoundTrip(parses, ms[0], rest);
    var w := EarlyEnd(parses, ms[1..], n - f);
    whole := w + 1;
    assert ms[..whole][1..] == ms[1..][..w];
  }
}
