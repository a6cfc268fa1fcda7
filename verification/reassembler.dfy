/**
  The inbound message reassembler of the MQTT client: the announce callback
  `mqtt_pub_start_cb` and the data callback `mqtt_pub_data_cb`, acting on the
  three globals `buffer` (1025 bytes), `data_in` (bytes still expected) and
  `data_len` (write offset).

  The source declares `data_len` as an 8-bit counter, so the write offset wraps
  for messages longer than 255 bytes. The width of the offset is a parameter
  here: `U8` is the code as written, `U16` the evidently intended behaviour.
 */
module Reassembler {
  import opened Types

  /** Size of the static receive buffer: room for 1024 bytes and a terminator. */
  const BufferSize: nat := 1025

  /** Longest announced message that the announce callback accepts. */
  const MaxMessage: nat := 1024

  /** Longest chunk the transport can hand over in one call (`u16_t len`). */
  const MaxChunk: nat := 0xFFFF

  type Buffer = b: seq<byte> | |b| == BufferSize witness seq(BufferSize, _ => 0)

  /** Width of the write offset `data_len`. */
  datatype OffsetWidth = U8 | U16

  function Modulus(w: OffsetWidth): nat {
    match w
    case U8 => 0x100
    case U16 => 0x1_0000
  }

  /** `x` stored into an offset counter of width `w`: C's truncating assignment. */
  function Truncate(x: nat, w: OffsetWidth): (r: nat)
    ensures r < Modulus(w)
    ensures x < Modulus(w) ==> r == x
    ensures (x - r) % Modulus(w) == 0
  {
    match w
    case U8 => x % 0x100
    case U16 => x % 0x1_0000
  }

  /** The three globals of the reassembler. */
  datatype State = State(buffer: Buffer, dataIn: nat, dataLen: nat)

  /** The notifications the MQTT engine delivers for inbound publishes. */
  datatype Event =
    | Announced(totLen: uint32)   // mqtt_pub_start_cb
    | Data(bytes: seq<byte>)      // mqtt_pub_data_cb

  /**
    The reachable-state invariant: the bytes already written plus the bytes still
    expected fit below the terminator slot, so every copy and the terminator stay
    inside the buffer.
   */
  predicate Valid(s: State) {
    s.dataLen + s.dataIn <= MaxMessage
  }

  /** The globals as static storage initialises them: all zero. */
  function Init(): (s: State)
    ensures Valid(s)
    ensures s.dataIn == 0 && s.dataLen == 0
    ensures forall i :: 0 <= i < BufferSize ==> s.buffer[i] == 0
  {
    State(seq(BufferSize, _ => 0), 0, 0)
  }

  /** `memcpy(&buffer[off], data, |data|)`. */
  function Write(buf: Buffer, off: nat, data: seq<byte>): (r: Buffer)
    requires off + |data| <= BufferSize
    ensures forall i :: 0 <= i < BufferSize ==>
              r[i] == if off <= i < off + |data| then data[i - off] else buf[i]
  {
    buf[..off] + data + buf[off + |data|..]
  }

  /**
    `mqtt_pub_start_cb`: an announced length above 1024 is only logged; any other
    length starts a new message. An announce never writes to the buffer.
   */
  function Announce(s: State, totLen: uint32): (r: State)
    ensures r.buffer == s.buffer
    ensures totLen <= MaxMessage ==> r.dataIn == totLen && r.dataLen == 0
    ensures MaxMessage < totLen ==> r == s
    ensures totLen <= MaxMessage ==> Valid(r)
    ensures Valid(s) ==> Valid(r)
  {
    if totLen > MaxMessage then s else s.(dataIn := totLen, dataLen := 0)
  }

  /**
    The transport's framing promise for one chunk: it fits in a `u16_t`, and
    while a message is in flight it does not exceed the bytes still expected.
   */
  predicate Admissible(s: State, bytes: seq<byte>) {
    |bytes| <= MaxChunk && (s.dataIn > 0 ==> |bytes| <= s.dataIn)
  }

  /**
    `mqtt_pub_data_cb`: with no message in flight the chunk is ignored; otherwise
    it is copied at the write offset, `data_in` drops by its length, the offset
    advances modulo the counter's width, and the terminator is written at the new
    offset exactly when the message is complete.
   */
  function Chunk(s: State, bytes: seq<byte>, w: OffsetWidth): (r: State)
    requires Valid(s) && Admissible(s, bytes)
    ensures Valid(r)
    ensures s.dataIn == 0 ==> r == s
    ensures s.dataIn > 0 ==> s.dataLen + |bytes| <= MaxMessage
    ensures s.dataIn > 0 ==> r.dataIn == s.dataIn - |bytes|
    ensures s.dataIn > 0 ==> r.dataLen == Truncate(s.dataLen + |bytes|, w)
    ensures s.dataIn > 0 ==> forall i :: 0 <= i < |bytes| ==>
              r.buffer[s.dataLen + i] == if r.dataIn == 0 && s.dataLen + i == r.dataLen then 0 else bytes[i]
    ensures s.dataIn > 0 ==> forall i :: 0 <= i < BufferSize ==>
              !(s.dataLen <= i < s.dataLen + |bytes|) && !(r.dataIn == 0 && i == r.dataLen) ==>
              r.buffer[i] == s.buffer[i]
    ensures s.dataIn > 0 && r.dataIn == 0 ==> r.buffer[r.dataLen] == 0
  {
    if s.dataIn > 0 then
      var copied := Write(s.buffer, s.dataLen, bytes);
      var dataIn := s.dataIn - |bytes|;
      var dataLen := Truncate(s.dataLen + |bytes|, w);
      var buffer := if dataIn == 0 then copied[dataLen := 0] else copied;
      State(buffer, dataIn, dataLen)
    else
      s
  }

  /** Whether an event may be delivered in state `s`. */
  predicate EventAdmissible(s: State, e: Event) {
    e.Data? ==> Admissible(s, e.bytes)
  }

  function Step(s: State, e: Event, w: OffsetWidth): (r: State)
    requires Valid(s) && EventAdmissible(s, e)
    ensures Valid(r)
  {
    match e
    case Announced(n) => Announce(s, n)
    case Data(bytes) => Chunk(s, bytes, w)
  }

  /** Every event of the trace respects the transport's framing when it arrives. */
  predicate Framed(s: State, events: seq<Event>, w: OffsetWidth)
    requires Valid(s)
    decreases |events|
  {
    events == [] ||
    (EventAdmissible(s, events[0]) && Framed(Step(s, events[0], w), events[1..], w))
  }

  /**
    Delivers a trace of notifications. The bounds invariant holds after any
    framed trace, so no copy and no terminator ever leaves the buffer.
   */
  function Run(s: State, events: seq<Event>, w: OffsetWidth): (r: State)
    requires Valid(s) && Framed(s, events, w)
    ensures Valid(r)
    decreases |events|
  {
    if events == [] then s else Run(Step(s, events[0], w), events[1..], w)
  }

  /** A trace made only of chunks, each of a length the transport can deliver. */
  predicate Chunks(events: seq<Event>) {
    forall k :: 0 <= k < |events| ==> events[k].Data? && |events[k].bytes| <= MaxChunk
  }

  /** The bytes carried by the chunks of a trace, in order. */
  function Payload(events: seq<Event>): seq<byte>
    requires Chunks(events)
  {
    if events == [] then [] else events[0].bytes + Payload(events[1..])
  }

  /**
    With no message in flight, every chunk is ignored: the state is unchanged,
    whatever the chunks' lengths.
   */
  lemma {:induction false} IdleIgnoresChunks(s: State, events: seq<Event>, w: OffsetWidth)
    requires Valid(s) && s.dataIn == 0 && Chunks(events)
    ensures Framed(s, events, w)
    ensures Run(s, events, w) == s
    decreases |events|
  {
    if events != [] {
      assert Step(s, events[0], w) == s;
      IdleIgnoresChunks(s, events[1..], w);
    }
  }

  /** One chunk of a message whose offset does not wrap lands right after the bytes before it. */
  lemma ChunkAppends(s: State, c: seq<byte>, w: OffsetWidth)
    requires Valid(s) && Admissible(s, c) && s.dataIn > 0
    requires s.dataLen + s.dataIn < Modulus(w)
    ensures var s1 := Chunk(s, c, w);
      && s1.dataLen == s.dataLen + |c|
      && s1.dataIn == s.dataIn - |c|
      && (forall i :: 0 <= i < s.dataLen ==> s1.buffer[i] == s.buffer[i])
      && (forall i :: 0 <= i < |c| ==> s1.buffer[s.dataLen + i] == c[i])
      && (s1.dataIn == 0 ==> s1.buffer[s1.dataLen] == 0)
  {
  }

  /**
    A run of chunks whose lengths add up to the bytes expected, with no offset
    wrap-around ahead, lays the chunks out contiguously from the write offset,
    terminates them, and leaves the bytes before the offset alone.
   */
  lemma {:induction false} ChunksFill(s: State, events: seq<Event>, w: OffsetWidth)
    requires Valid(s) && Chunks(events)
    requires 0 < s.dataIn == |Payload(events)|
    requires s.dataLen + s.dataIn < Modulus(w)
    ensures Framed(s, events, w)
    ensures var r := Run(s, events, w);
      && r.dataIn == 0
      && r.dataLen == s.dataLen + s.dataIn
      && (forall i :: 0 <= i < s.dataIn ==> r.buffer[s.dataLen + i] == Payload(events)[i])
      && r.buffer[r.dataLen] == 0
      && (forall i :: 0 <= i < s.dataLen ==> r.buffer[i] == s.buffer[i])
    decreases |events|
  {
    var c := events[0].bytes;
    var rest := events[1..];
    assert Chunks(rest);
    var p := Payload(events);
    assert p == c + Payload(rest);
    var s1 := Chunk(s, c, w);
    assert Step(s, events[0], w) == s1;
    ChunkAppends(s, c, w);
    if s1.dataIn == 0 {
      assert |Payload(rest)| == 0;
      IdleIgnoresChunks(s1, rest, w);
      assert Run(s, events, w) == s1;
    } else {
      ChunksFill(s1, rest, w);
      FillStep(s, s1, Run(s1, rest, w), c, Payload(rest));
      assert Run(s, events, w) == Run(s1, rest, w);
    }
  }

  /** Gluing step of `ChunksFill`: the chunk's bytes survive the rest of the run. */
  lemma FillStep(s: State, s1: State, r: State, c: seq<byte>, tail: seq<byte>)
    requires Valid(s) && Valid(s1)
    requires s1.dataLen == s.dataLen + |c| && s1.dataIn == |tail|
    requires forall i :: 0 <= i < s.dataLen ==> s1.buffer[i] == s.buffer[i]
    requires forall i :: 0 <= i < |c| ==> s1.buffer[s.dataLen + i] == c[i]
    requires forall i :: 0 <= i < s1.dataIn ==> r.buffer[s1.dataLen + i] == tail[i]
    requires forall i :: 0 <= i < s1.dataLen ==> r.buffer[i] == s1.buffer[i]
    ensures forall i :: 0 <= i < |c| + |tail| ==> r.buffer[s.dataLen + i] == (c + tail)[i]
    ensures forall i :: 0 <= i < s.dataLen ==> r.buffer[i] == s.buffer[i]
  {
    forall i | 0 <= i < |c| + |tail|
      ensures r.buffer[s.dataLen + i] == (c + tail)[i]
    {
      if i < |c| {
        assert r.buffer[s.dataLen + i] == s1.buffer[s.dataLen + i];
      } else {
        assert r.buffer[s1.dataLen + (i - |c|)] == tail[i - |c|];
      }
    }
  }

  /**
    An accepted announce of `n` bytes followed by chunks carrying exactly `n`
    bytes leaves the message at the start of the buffer with a terminator after
    it, provided the write offset does not wrap for a message of that length.
   */
  lemma Reassembles(s: State, n: uint32, events: seq<Event>, w: OffsetWidth)
    requires Valid(s) && Chunks(events)
    requires 0 < n <= MaxMessage && n < Modulus(w)
    requires |Payload(events)| == n
    ensures Framed(s, [Announced(n)] + events, w)
    ensures var r := Run(s, [Announced(n)] + events, w);
      r.buffer[..n] == Payload(events) && r.buffer[n] == 0
  {
    var trace := [Announced(n)] + events;
    assert trace[0] == Announced(n) && trace[1..] == events;
    var s1 := Announce(s, n);
    ChunksFill(s1, events, w);
    var r := Run(s1, events, w);
    assert Run(s, trace, w) == r;
    assert r.buffer[..n] == Payload(events);
  }

  /** As written: messages of 1 to 255 bytes are reassembled whatever their chunking. */
  lemma NarrowReassemblesShortMessages(s: State, n: uint32, events: seq<Event>)
    requires Valid(s) && Chunks(events)
    requires 0 < n <= 255 && |Payload(events)| == n
    ensures Framed(s, [Announced(n)] + events, U8)
    ensures var r := Run(s, [Announced(n)] + events, U8);
      r.buffer[..n] == Payload(events) && r.buffer[n] == 0
  {
    Reassembles(s, n, events, U8);
  }

  /** Corrected: with a 16-bit offset every accepted non-empty message is reassembled. */
  lemma WideReassemblesAllMessages(s: State, n: uint32, events: seq<Event>)
    requires Valid(s) && Chunks(events)
    requires 0 < n <= MaxMessage && |Payload(events)| == n
    ensures Framed(s, [Announced(n)] + events, U16)
    ensures var r := Run(s, [Announced(n)] + events, U16);
      r.buffer[..n] == Payload(events) && r.buffer[n] == 0
  {
    Reassembles(s, n, events, U16);
  }

  /** Delivering one event and then the rest of a trace is delivering the whole trace. */
  lemma RunCons(s: State, e: Event, rest: seq<Event>, w: OffsetWidth)
    requires Valid(s) && EventAdmissible(s, e) && Framed(Step(s, e, w), rest, w)
    ensures Framed(s, [e] + rest, w)
    ensures Run(s, [e] + rest, w) == Run(Step(s, e, w), rest, w)
  {
    assert ([e] + rest)[0] == e && ([e] + rest)[1..] == rest;
  }

  /** Text carries no NUL byte. */
  predicate NulFree(c: seq<byte>) {
    forall i :: 0 <= i < |c| ==> c[i] != 0
  }

  /**
    As written, a NUL-free message of 256 to 1024 bytes delivered in one chunk
    is terminated at offset `n % 256`, inside the message, and the byte after it
    is left as it was.
   */
  lemma NarrowOffsetTruncatesLongMessage(s: State, n: uint32, c: seq<byte>)
    requires Valid(s) && 256 <= n <= MaxMessage
    requires |c| == n && NulFree(c)
    ensures Framed(s, [Announced(n), Data(c)], U8)
    ensures var r := Run(s, [Announced(n), Data(c)], U8);
      && r.dataIn == 0
      && r.dataLen == n % 256
      && r.buffer[n % 256] == 0
      && r.buffer[n] == s.buffer[n]
      && r.buffer[..n] != c
  {
    var s0 := Announce(s, n);
    var s1 := Chunk(s0, c, U8);
    assert Framed(s1, [], U8) && Run(s1, [], U8) == s1;
    RunCons(s0, Data(c), [], U8);
    assert [Data(c)] + [] == [Data(c)];
    RunCons(s, Announced(n), [Data(c)], U8);
    assert [Announced(n)] + [Data(c)] == [Announced(n), Data(c)];
    assert s1.buffer[..n][n % 256] == 0 != c[n % 256];
  }

  /** A trace of an announce and three chunks, each admissible when it arrives, delivers them in turn. */
  lemma RunAnnounceThree(s: State, n: uint32, c0: seq<byte>, c1: seq<byte>, c2: seq<byte>, w: OffsetWidth)
    requires Valid(s)
    requires var s0 := Announce(s, n);
      && Admissible(s0, c0)
      && Admissible(Chunk(s0, c0, w), c1)
      && Admissible(Chunk(Chunk(s0, c0, w), c1, w), c2)
    ensures Framed(s, [Announced(n), Data(c0), Data(c1), Data(c2)], w)
    ensures Run(s, [Announced(n), Data(c0), Data(c1), Data(c2)], w)
         == Chunk(Chunk(Chunk(Announce(s, n), c0, w), c1, w), c2, w)
  {
    var s0 := Announce(s, n);
    var s1 := Chunk(s0, c0, w);
    var s2 := Chunk(s1, c1, w);
    var s3 := Chunk(s2, c2, w);
    assert Framed(s3, [], w) && Run(s3, [], w) == s3;
    RunCons(s2, Data(c2), [], w);
    assert [Data(c2)] + [] == [Data(c2)];
    RunCons(s1, Data(c1), [Data(c2)], w);
    assert [Data(c1)] + [Data(c2)] == [Data(c1), Data(c2)];
    RunCons(s0, Data(c0), [Data(c1), Data(c2)], w);
    assert [Data(c0)] + [Data(c1), Data(c2)] == [Data(c0), Data(c1), Data(c2)];
    RunCons(s, Announced(n), [Data(c0), Data(c1), Data(c2)], w);
    assert [Announced(n)] + [Data(c0), Data(c1), Data(c2)]
        == [Announced(n), Data(c0), Data(c1), Data(c2)];
  }

  /** The offsets the 8-bit counter takes for chunks of 400, 400 and 200 bytes. */
  lemma NarrowOffsetScenarioTrace(s: State, c0: seq<byte>, c1: seq<byte>, c2: seq<byte>)
    requires Valid(s)
    requires |c0| == 400 && |c1| == 400 && |c2| == 200
    ensures Framed(s, [Announced(1000), Data(c0), Data(c1), Data(c2)], U8)
    ensures var r := Run(s, [Announced(1000), Data(c0), Data(c1), Data(c2)], U8);
      r.dataIn == 0 && r.dataLen == 232 && r.buffer[232] == 0
  {
    var s0 := Announce(s, 1000);
    var s1 := Chunk(s0, c0, U8);
    assert s1.dataIn == 600 && s1.dataLen == 144;
    var s2 := Chunk(s1, c1, U8);
    assert s2.dataIn == 200 && s2.dataLen == 32;
    var s3 := Chunk(s2, c2, U8);
    assert s3.dataIn == 0 && s3.dataLen == 232;
    RunAnnounceThree(s, 1000, c0, c1, c2, U8);
  }

  /**
    As written, a NUL-free 1000-byte message delivered in chunks of 400, 400 and
    200 bytes is copied at offsets 0, 144 and 32 and terminated at offset 232,
    so the first 1000 bytes of the buffer are not the message.
   */
  lemma NarrowOffsetScenario(s: State, c0: seq<byte>, c1: seq<byte>, c2: seq<byte>)
    requires Valid(s)
    requires |c0| == 400 && |c1| == 400 && |c2| == 200 && NulFree(c0 + c1 + c2)
    ensures Framed(s, [Announced(1000), Data(c0), Data(c1), Data(c2)], U8)
    ensures var r := Run(s, [Announced(1000), Data(c0), Data(c1), Data(c2)], U8);
      r.dataLen == 232 && r.buffer[..1000] != c0 + c1 + c2
  {
    NarrowOffsetScenarioTrace(s, c0, c1, c2);
    var r := Run(s, [Announced(1000), Data(c0), Data(c1), Data(c2)], U8);
    assert (c0 + c1 + c2)[232] != 0;
    assert r.buffer[..1000][232] == 0;
  }

  /**
    An announce of zero bytes leaves no message in flight, so no chunk reaches
    the buffer and no terminator is written: the buffer keeps its old contents.
   */
  lemma EmptyMessageIsNotTerminated(s: State, events: seq<Event>, w: OffsetWidth)
    requires Valid(s) && Chunks(events)
    ensures Framed(s, [Announced(0)] + events, w)
    ensures Run(s, [Announced(0)] + events, w).buffer == s.buffer
  {
    var trace := [Announced(0)] + events;
    assert trace[0] == Announced(0) && trace[1..] == events;
    IdleIgnoresChunks(Announce(s, 0), events, w);
  }

  /**
    An oversized announce after a completed message is discarded with all its
    chunks: the state is the one the completed message left.
   */
  lemma OversizedAfterCompletionIsDiscarded(s: State, n: uint32, events: seq<Event>, w: OffsetWidth)
    requires Valid(s) && s.dataIn == 0 && Chunks(events)
    requires MaxMessage < n
    ensures Framed(s, [Announced(n)] + events, w)
    ensures Run(s, [Announced(n)] + events, w) == s
  {
    var trace := [Announced(n)] + events;
    assert trace[0] == Announced(n) && trace[1..] == events;
    IdleIgnoresChunks(s, events, w);
  }
}
