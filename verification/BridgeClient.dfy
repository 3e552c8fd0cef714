/**
 `BridgeClient`: reassembly of a byte stream by possibly several overlapping `drain()`
 activations that share one buffer.

 Every stretch of code between two awaits is one atomic step. An activation suspended in
 `await onBinaryFrame(...)` always continues at the top of its loop, so suspended
 activations differ in nothing and a counter of them is the whole scheduling state.
 */
module BridgeClients {
  import opened Collections
  import opened Octets
  import opened WebSocketFrames

  /** MAX_CLIENT_BUFFER_BYTES. */
  const BUFFER_CAP: nat := 65536

  const CLOSE: byte := 8
  const PING: byte := 9
  const PONG: byte := 10
  const BINARY: byte := 2

  /**
   The state of a client and of its socket, which takes no more writes once it is `ended` or
   `destroyed`. `handed` is what reached `onBinaryFrame`, `written` what the socket accepted, and
   `notified` counts the calls of `onClosed`. The last five fields are history: every byte
   received, every frame taken off the buffer, every frame the bridge sent, those of them the
   socket accepted, and whether a data event ever found the buffer above its cap.
   */
  datatype Client = Client(
    buffer: Bytes, closed: bool, destroyed: bool, ended: bool, suspended: nat,
    handed: seq<Bytes>, written: seq<Bytes>, notified: nat,
    received: Bytes, taken: seq<Frame>, sent: seq<Frame>, accepted: seq<Frame>, overflowed: bool)

  const Fresh: Client := Client([], false, false, false, 0, [], [], 0, [], [], [], [], false)

  datatype Event =
    | Data(chunk: Bytes)
    | Resume
    | SendBinary(payload: Bytes)
    | CloseRequest(payload: Bytes)
    | SocketClosed
    | SocketDestroyed

  /** The close payloads: a big-endian status code and an ASCII reason. */
  const NORMAL_CLOSE: Bytes := BigEndian(1000, 2) + Ascii("Closing.")
  const TOO_LARGE_CLOSE: Bytes := BigEndian(1009, 2) + Ascii("Frame too large.")

  function Ascii(s: string): Bytes {
    seq(|s|, i requires 0 <= i < |s| => if s[i] < 128 as char then s[i] as int else 63)
  }

  function Write(c: Client, opcode: byte, payload: Bytes): Client
    requires opcode < 16
  {
    var frame := Frame(opcode, payload);
    if c.ended || c.destroyed then c.(sent := c.sent + [frame])
    else c.(written := c.written + [Encode(opcode, payload)], accepted := c.accepted + [frame],
            sent := c.sent + [frame])
  }

  /** `close()`: a close frame, then `socket.end()`; it does not set `closed`. */
  function SendClose(c: Client, payload: Bytes): Client {
    if c.closed || c.destroyed then c else Write(c, CLOSE, payload).(ended := true)
  }

  /** One activation from the top of its loop to its next await or to its end. */
  function Stretch(c: Client): Client
    decreases |c.buffer|
  {
    match Decode(c.buffer)
    case Decoded(frame, rest) =>
      var t := c.(buffer := rest, taken := c.taken + [frame]);
      if frame.opcode == CLOSE then SendClose(t, NORMAL_CLOSE)
      else if frame.opcode == PING then Stretch(Write(t, PONG, frame.payload))
      else if frame.opcode == BINARY then t.(handed := t.handed + [frame.payload], suspended := t.suspended + 1)
      else Stretch(t)
    case _ => c
  }

  function Step(c: Client, e: Event): Client {
    match e
    case Data(chunk) =>
      var t := c.(buffer := c.buffer + chunk, received := c.received + chunk);
      if |t.buffer| > BUFFER_CAP then SendClose(t.(overflowed := true), TOO_LARGE_CLOSE) else Stretch(t)
    case Resume => if c.suspended == 0 then c else Stretch(c.(suspended := c.suspended - 1))
    case SendBinary(payload) => if c.closed || c.destroyed then c else Write(c, BINARY, payload)
    case CloseRequest(payload) => SendClose(c, payload)
    case SocketClosed => if c.closed then c else c.(closed := true, notified := c.notified + 1)
    case SocketDestroyed => c.(destroyed := true)
  }

  function Run(c: Client, events: seq<Event>): Client {
    if events == [] then c else Step(Run(c, events[..|events| - 1]), events[|events| - 1])
  }

  // ----- what a run delivers -----

  /** The payloads of the frames with a given opcode, in order. */
  function Select(frames: seq<Frame>, opcode: byte): seq<Bytes> {
    if frames == [] then []
    else
      var last := frames[|frames| - 1];
      Select(frames[..|frames| - 1], opcode) + if last.opcode == opcode then [last.payload] else []
  }

  lemma {:induction false} SelectAppend(a: seq<Frame>, b: seq<Frame>, opcode: byte)
    ensures Select(a + b, opcode) == Select(a, opcode) + Select(b, opcode)
  {
    if b == [] {
      assert a + b == a;
    } else {
      assert (a + b)[..|a + b| - 1] == a + b[..|b| - 1];
      SelectAppend(a, b[..|b| - 1], opcode);
    }
  }

  predicate HasClose(frames: seq<Frame>) {
    exists f :: f in frames && f.opcode == CLOSE
  }

  /** No frame is lost, duplicated or reordered, and every output is accounted for by a frame taken. */
  ghost predicate Conserved(c: Client) {
    && c.taken + Frames(c.buffer) == Frames(c.received)
    && Tail(c.buffer) == Tail(c.received)
    && c.handed == Select(c.taken, BINARY)
    && Select(c.sent, PONG) == Select(c.taken, PING)
  }

  /** A complete frame stays in the buffer only for a suspended activation, a close or an overflow. */
  ghost predicate Drained(c: Client) {
    c.suspended == 0 && !c.overflowed && !HasClose(c.taken) ==> Frames(c.buffer) == []
  }

  lemma TakeHead(c: Client)
    requires Decode(c.buffer).Decoded? && c.taken + Frames(c.buffer) == Frames(c.received)
    requires Tail(c.buffer) == Tail(c.received)
    ensures var r := Decode(c.buffer);
            && (c.taken + [r.frame]) + Frames(r.remaining) == Frames(c.received)
            && Tail(r.remaining) == Tail(c.received)
  {
    hide Decode;
    var r := Decode(c.buffer);
    assert (c.taken + [r.frame]) + Frames(r.remaining) == c.taken + ([r.frame] + Frames(r.remaining));
  }

  lemma TakeOutputs(taken: seq<Frame>, f: Frame, opcode: byte)
    ensures Select(taken + [f], opcode) == Select(taken, opcode) + if f.opcode == opcode then [f.payload] else []
  {
    assert (taken + [f])[..|taken|] == taken;
  }

  /** What one frame does to the books before any further frame is read. */
  lemma TakeKeeps(c: Client)
    requires Conserved(c) && Decode(c.buffer).Decoded?
    ensures var r := Decode(c.buffer); var t := c.(buffer := r.remaining, taken := c.taken + [r.frame]);
            && (r.frame.opcode == PING ==> Conserved(Write(t, PONG, r.frame.payload)))
            && (r.frame.opcode == BINARY ==>
                  Conserved(t.(handed := t.handed + [r.frame.payload], suspended := t.suspended + 1)))
            && (r.frame.opcode == CLOSE ==> Conserved(SendClose(t, NORMAL_CLOSE)))
            && (r.frame.opcode !in {PING, BINARY} ==> Conserved(t))
  {
    var r := Decode(c.buffer);
    TakeHead(c);
    TakeOutputs(c.taken, r.frame, BINARY);
    TakeOutputs(c.taken, r.frame, PING);
    TakeOutputs(c.sent, Frame(CLOSE, NORMAL_CLOSE), PONG);
    TakeOutputs(c.sent, Frame(PONG, r.frame.payload), PONG);
    hide Decode, Encode, Frames, Tail, Select;
  }

  lemma {:induction false} StretchKeeps(c: Client)
    requires Conserved(c)
    ensures Conserved(Stretch(c)) && Drained(Stretch(c))
    ensures Stretch(c).received == c.received && Stretch(c).overflowed == c.overflowed
    decreases |c.buffer|
  {
    hide Decode, Encode, Conserved;
    match Decode(c.buffer)
    case Decoded(frame, rest) =>
      TakeKeeps(c);
      var t := c.(buffer := rest, taken := c.taken + [frame]);
      if frame.opcode == CLOSE {
        assert frame in t.taken;
      } else if frame.opcode == PING {
        StretchKeeps(Write(t, PONG, frame.payload));
      } else if frame.opcode != BINARY {
        StretchKeeps(t);
      }
    case _ =>
  }

  /** Receiving a chunk extends the stream by exactly its frames. */
  lemma ReceiveKeeps(c: Client, chunk: Bytes)
    requires Conserved(c)
    ensures Conserved(c.(buffer := c.buffer + chunk, received := c.received + chunk))
  {
    hide Decode;
    FramesSplit(c.buffer, chunk);
    FramesSplit(c.received, chunk);
    assert c.taken + (Frames(c.buffer) + Frames(Tail(c.buffer) + chunk))
           == (c.taken + Frames(c.buffer)) + Frames(Tail(c.buffer) + chunk);
  }

  lemma StepKeeps(c: Client, e: Event)
    requires Conserved(c) && Drained(c)
    ensures Conserved(Step(c, e)) && Drained(Step(c, e))
    ensures Step(c, e).received == c.received + (if e.Data? then e.chunk else [])
  {
    hide Decode, Encode, Frames, Stretch;
    match e
    case Data(chunk) =>
      ReceiveKeeps(c, chunk);
      var t := c.(buffer := c.buffer + chunk, received := c.received + chunk);
      if |t.buffer| > BUFFER_CAP {
        TakeOutputs(t.sent, Frame(CLOSE, TOO_LARGE_CLOSE), PONG);
      } else {
        StretchKeeps(t);
      }
    case Resume =>
      if c.suspended != 0 {
        StretchKeeps(c.(suspended := c.suspended - 1));
      }
    case SendBinary(payload) => TakeOutputs(c.sent, Frame(BINARY, payload), PONG);
    case CloseRequest(payload) => TakeOutputs(c.sent, Frame(CLOSE, payload), PONG);
    case _ =>
  }

  /** Every byte the events of a run carry, in order. */
  function Received(events: seq<Event>): Bytes {
    if events == [] then []
    else
      var last := events[|events| - 1];
      Received(events[..|events| - 1]) + if last.Data? then last.chunk else []
  }

  /** The main invariant, over every run: chunks, resumptions and socket events in any order. */
  lemma {:induction false} RunKeeps(events: seq<Event>)
    ensures var c := Run(Fresh, events);
            Conserved(c) && Drained(c) && c.received == Received(events)
  {
    hide Decode, Encode, Stretch, Step;
    if events == [] {
      EmptyStream();
    } else {
      RunKeeps(events[..|events| - 1]);
      StepKeeps(Run(Fresh, events[..|events| - 1]), events[|events| - 1]);
    }
  }

  lemma EmptyStream()
    ensures Frames([]) == [] && Tail([]) == []
  {
  }

  /** What has been handed over is always an initial part of the binary frames of the stream received. */
  lemma HandedIsPrefix(events: seq<Event>)
    ensures Run(Fresh, events).handed <= Select(Frames(Received(events)), BINARY)
  {
    RunKeeps(events);
    var c := Run(Fresh, events);
    SelectAppend(c.taken, Frames(c.buffer), BINARY);
  }

  /** A run is complete when nothing is suspended, no close frame was read and the cap was never hit. */
  ghost predicate Complete(c: Client) {
    c.suspended == 0 && !c.overflowed && !HasClose(c.taken)
  }

  /**
   Chunking and interleaving cannot change what is delivered: a complete run has handed over
   exactly the binary payloads of the stream, answered exactly its pings, and kept exactly
   the unfinished tail.
   */
  lemma CompleteRunDelivers(events: seq<Event>)
    requires Complete(Run(Fresh, events))
    ensures var c := Run(Fresh, events); var stream := Frames(Received(events));
            && c.handed == Select(stream, 0x2)
            && Select(c.sent, 0xA) == Select(stream, 0x9)
            && Tail(c.buffer) == Tail(Received(events)) && Frames(c.buffer) == []
  {
    RunKeeps(events);
    var c := Run(Fresh, events);
    assert c.taken + [] == c.taken;
  }

  /**
   Two complete runs over the same bytes deliver the same, however the bytes were cut and the
   activations scheduled.
   */
  lemma Confluence(left: seq<Event>, right: seq<Event>)
    requires Received(left) == Received(right)
    requires Complete(Run(Fresh, left)) && Complete(Run(Fresh, right))
    ensures Run(Fresh, left).handed == Run(Fresh, right).handed
    ensures Select(Run(Fresh, left).sent, PONG) == Select(Run(Fresh, right).sent, PONG)
  {
    CompleteRunDelivers(left);
    CompleteRunDelivers(right);
  }

  lemma {:induction false} StretchShrinks(c: Client)
    ensures |Stretch(c).buffer| <= |c.buffer|
    decreases |c.buffer|
  {
    hide Encode;
    match Decode(c.buffer)
    case Decoded(frame, rest) =>
      var t := c.(buffer := rest, taken := c.taken + [frame]);
      if frame.opcode == PING {
        StretchShrinks(Write(t, PONG, frame.payload));
      } else if frame.opcode != CLOSE && frame.opcode != BINARY {
        StretchShrinks(t);
      }
    case _ =>
  }

  /** A stream of at most 64 KiB can never trip the cap, so there completeness needs no cap clause. */
  lemma {:induction false} SmallStreamNeverOverflows(events: seq<Event>)
    requires |Received(events)| <= BUFFER_CAP
    ensures !Run(Fresh, events).overflowed
    ensures |Run(Fresh, events).buffer| <= |Received(events)|
  {
    hide Decode, Encode, Stretch;
    if events != [] {
      var before := events[..|events| - 1];
      var e := events[|events| - 1];
      SmallStreamNeverOverflows(before);
      var c := Run(Fresh, before);
      RunKeeps(before);
      match e
      case Data(chunk) =>
        var t := c.(buffer := c.buffer + chunk, received := c.received + chunk);
        StretchShrinks(t);
        ReceiveKeeps(c, chunk);
        StretchKeeps(t);
      case Resume =>
        if c.suspended > 0 {
          StretchShrinks(c.(suspended := c.suspended - 1));
          StretchKeeps(c.(suspended := c.suspended - 1));
        }
      case _ =>
    }
  }

  // ----- the peer's view -----

  /** Payloads short enough for the 64-bit length form to be exact. */
  ghost predicate Writable(frames: seq<Frame>) {
    forall f :: f in frames ==> |f.payload| <= MAX_SAFE_LENGTH
  }

  /** The frames up to and with the first close frame, or all of them. */
  function UpToClose(frames: seq<Frame>): seq<Frame> {
    if frames == [] then []
    else
      var front := frames[..|frames| - 1];
      if HasClose(front) then UpToClose(front) else frames
  }

  lemma {:induction false} UpToClosePrefix(frames: seq<Frame>)
    ensures UpToClose(frames) <= frames
    ensures !HasClose(frames) ==> UpToClose(frames) == frames
  {
    if frames != [] {
      UpToClosePrefix(frames[..|frames| - 1]);
      if HasClose(frames[..|frames| - 1]) {
        var f :| f in frames[..|frames| - 1] && f.opcode == CLOSE;
        assert f in frames;
      }
    }
  }

  /** Nothing that follows a close frame matters for what leads up to it. */
  lemma {:induction false} UpToCloseAppend(frames: seq<Frame>, more: seq<Frame>)
    requires HasClose(frames)
    ensures UpToClose(frames + more) == UpToClose(frames)
  {
    if more == [] {
      assert frames + more == frames;
    } else {
      var front := more[..|more| - 1];
      assert (frames + more)[..|frames + more| - 1] == frames + front;
      UpToCloseAppend(frames, front);
      var f :| f in frames && f.opcode == CLOSE;
      assert f in frames + front;
    }
  }

  lemma SelectPrefix(a: seq<Frame>, b: seq<Frame>, opcode: byte)
    requires a <= b
    ensures Select(a, opcode) <= Select(b, opcode)
  {
    SelectAppend(a, b[|a|..], opcode);
    assert b == a + b[|a|..];
  }

  /**
   A session with or without a close frame: once no activation is suspended and the cap was never
   hit, everything up to the first close frame has been delivered and answered, and nothing that
   is not in the stream.
   */
  lemma DeliversUpToClose(events: seq<Event>)
    requires Run(Fresh, events).suspended == 0 && !Run(Fresh, events).overflowed
    ensures var c := Run(Fresh, events); var stream := Frames(Received(events));
            && Select(UpToClose(stream), BINARY) <= c.handed <= Select(stream, BINARY)
            && Select(UpToClose(stream), PING) <= Select(c.sent, PONG) <= Select(stream, PING)
  {
    hide Run, Select, Frames, UpToClose, HasClose, Received, Tail;
    RunKeeps(events);
    var c := Run(Fresh, events);
    var stream := Frames(Received(events));
    assert c.taken <= stream;
    SelectPrefix(c.taken, stream, BINARY);
    SelectPrefix(c.taken, stream, PING);
    if HasClose(c.taken) {
      UpToCloseAppend(c.taken, Frames(c.buffer));
      UpToClosePrefix(c.taken);
    } else {
      assert c.taken == stream;
      UpToClosePrefix(stream);
    }
    SelectPrefix(UpToClose(stream), c.taken, BINARY);
    SelectPrefix(UpToClose(stream), c.taken, PING);
  }

  /**
   Two such runs over the same bytes agree up to the first close frame of the stream, and after
   it one of them may only have delivered more of the same.
   */
  lemma ConfluenceUpToClose(left: seq<Event>, right: seq<Event>)
    requires Received(left) == Received(right)
    requires Run(Fresh, left).suspended == 0 && !Run(Fresh, left).overflowed
    requires Run(Fresh, right).suspended == 0 && !Run(Fresh, right).overflowed
    ensures var common := Select(UpToClose(Frames(Received(left))), BINARY);
            var l, r := Run(Fresh, left).handed, Run(Fresh, right).handed;
            common <= l && common <= r && (l <= r || r <= l)
  {
    hide Run, Select, Frames, UpToClose, Received;
    DeliversUpToClose(left);
    DeliversUpToClose(right);
  }

  /** The socket accepts frames until the first close frame, or until it is destroyed. */
  ghost predicate Accepting(c: Client) {
    && (c.ended <==> HasClose(c.sent))
    && c.accepted <= UpToClose(c.sent)
    && (!c.destroyed ==> c.accepted == UpToClose(c.sent))
  }

  /** What was accepted parses as the accepted frames. */
  ghost predicate Parses(c: Client) {
    Writable(c.accepted) ==> Frames(Flatten(c.written)) == c.accepted && Tail(Flatten(c.written)) == []
  }

  ghost predicate PeerReads(c: Client) {
    Accepting(c) && Parses(c) && c.notified == (if c.closed then 1 else 0)
  }

  lemma UpToCloseSnoc(frames: seq<Frame>, f: Frame)
    ensures UpToClose(frames + [f]) == if HasClose(frames) then UpToClose(frames) else frames + [f]
    ensures HasClose(frames + [f]) <==> HasClose(frames) || f.opcode == CLOSE
    ensures !HasClose(frames) ==> UpToClose(frames) == frames
  {
    var all := frames + [f];
    assert all[..|all| - 1] == frames;
    assert f in all;
    forall g | g in frames
      ensures g in all
    {
    }
    if frames != [] && !HasClose(frames) {
      forall g | g in frames[..|frames| - 1]
        ensures g.opcode != CLOSE
      {
        assert g in frames;
      }
    }
  }

  /** One more frame encoded onto bytes that parse completely. */
  lemma AppendParses(c: Client, opcode: byte, payload: Bytes)
    requires Parses(c) && opcode < 16
    ensures Parses(Write(c, opcode, payload))
  {
    hide Decode, Encode;
    var d := Write(c, opcode, payload);
    if d.written != c.written && Writable(d.accepted) {
      assert d.written[..|d.written| - 1] == c.written;
      forall f | f in c.accepted
        ensures |f.payload| <= MAX_SAFE_LENGTH
      {
        assert f in d.accepted;
      }
      assert Frame(opcode, payload) in d.accepted;
      var bytes := Encode(opcode, payload);
      FramesSplit(Flatten(c.written), bytes);
      EncodeDecode(opcode, payload, []);
      assert bytes + [] == bytes == [] + bytes;
      EmptyStream();
      assert Frames(bytes) == [Frame(opcode, payload)] + Frames([]);
    }
  }

  lemma WriteReads(c: Client, opcode: byte, payload: Bytes)
    requires PeerReads(c) && opcode < 16
    ensures opcode != CLOSE ==> PeerReads(Write(c, opcode, payload))
    ensures opcode == CLOSE ==> PeerReads(Write(c, opcode, payload).(ended := true))
  {
    AppendParses(c, opcode, payload);
    UpToCloseSnoc(c.sent, Frame(opcode, payload));
    hide Encode, UpToClose, HasClose, Frames, Tail, Flatten;
  }

  /** Only what is listed here matters to the peer. */
  lemma PeerReadsFrame(c: Client, d: Client)
    requires PeerReads(c) && c.written == d.written && c.sent == d.sent && c.accepted == d.accepted
    requires c.ended == d.ended && c.closed == d.closed && c.notified == d.notified && (c.destroyed ==> d.destroyed)
    ensures PeerReads(d)
  {
  }

  lemma {:induction false} StretchReads(c: Client)
    requires PeerReads(c)
    ensures PeerReads(Stretch(c))
    decreases |c.buffer|
  {
    hide Decode, Encode, PeerReads, Frames, Write;
    match Decode(c.buffer)
    case Decoded(frame, rest) =>
      var t := c.(buffer := rest, taken := c.taken + [frame]);
      PeerReadsFrame(c, t);
      if frame.opcode == CLOSE {
        WriteReads(t, CLOSE, NORMAL_CLOSE);
      } else if frame.opcode == PING {
        WriteReads(t, PONG, frame.payload);
        WriteBuffer(t, PONG, frame.payload);
        StretchReads(Write(t, PONG, frame.payload));
      } else if frame.opcode == BINARY {
        PeerReadsFrame(t, Stretch(c));
      } else {
        StretchReads(t);
      }
    case _ =>
  }

  lemma WriteBuffer(c: Client, opcode: byte, payload: Bytes)
    requires opcode < 16
    ensures Write(c, opcode, payload).buffer == c.buffer
  {
  }

  lemma StepReads(c: Client, e: Event)
    requires PeerReads(c)
    ensures PeerReads(Step(c, e))
  {
    hide Decode, Encode, Stretch, Write, Accepting, Parses;
    match e
    case Data(chunk) =>
      var t := c.(buffer := c.buffer + chunk, received := c.received + chunk);
      PeerReadsFrame(c, t);
      PeerReadsFrame(c, t.(overflowed := true));
      WriteReads(t.(overflowed := true), CLOSE, TOO_LARGE_CLOSE);
      StretchReads(t);
    case Resume =>
      if c.suspended > 0 {
        PeerReadsFrame(c, c.(suspended := c.suspended - 1));
        StretchReads(c.(suspended := c.suspended - 1));
      }
    case SendBinary(payload) => WriteReads(c, BINARY, payload);
    case CloseRequest(payload) => WriteReads(c, CLOSE, payload);
    case SocketClosed => ClosedReads(c);
    case SocketDestroyed => PeerReadsFrame(c, c.(destroyed := true));
  }

  lemma ClosedReads(c: Client)
    requires PeerReads(c)
    ensures PeerReads(Step(c, SocketClosed))
  {
  }

  lemma FreshReads()
    ensures PeerReads(Fresh)
  {
    EmptyStream();
  }

  lemma {:induction false} RunKeepsReading(events: seq<Event>)
    ensures PeerReads(Run(Fresh, events))
  {
    hide Step, PeerReads;
    if events == [] {
      FreshReads();
    } else {
      RunKeepsReading(events[..|events| - 1]);
      StepReads(Run(Fresh, events[..|events| - 1]), events[|events| - 1]);
    }
  }

  /**
   In every run the peer reads exactly the frames the bridge sent up to its first close frame,
   and nothing else; if the socket is destroyed, an initial part of them.
   */
  lemma RunReads(events: seq<Event>)
    requires Writable(Run(Fresh, events).accepted)
    ensures var c := Run(Fresh, events); var read := Frames(Flatten(c.written));
            && Tail(Flatten(c.written)) == []
            && read <= UpToClose(c.sent)
            && (!c.destroyed ==> read == UpToClose(c.sent))
  {
    hide Run, UpToClose, Frames, Tail, Flatten;
    RunKeepsReading(events);
  }

  lemma {:induction false} StretchFrozen(c: Client)
    requires c.ended || c.destroyed
    ensures Stretch(c).written == c.written && (Stretch(c).ended || Stretch(c).destroyed)
    decreases |c.buffer|
  {
    hide Encode;
    match Decode(c.buffer)
    case Decoded(frame, rest) =>
      var t := c.(buffer := rest, taken := c.taken + [frame]);
      if frame.opcode == PING {
        StretchFrozen(Write(t, PONG, frame.payload));
      } else if frame.opcode != CLOSE && frame.opcode != BINARY {
        StretchFrozen(t);
      }
    case _ =>
  }

  /** Once the socket is ended or destroyed the peer reads nothing more, whatever is sent. */
  lemma {:induction false} NothingReadAfterEnd(events: seq<Event>, k: nat)
    requires k <= |events| && (Run(Fresh, events[..k]).ended || Run(Fresh, events[..k]).destroyed)
    ensures Run(Fresh, events).written == Run(Fresh, events[..k]).written
    ensures Run(Fresh, events).ended || Run(Fresh, events).destroyed
    decreases |events|
  {
    hide Step;
    if k == |events| {
      assert events[..k] == events;
    } else {
      var front, e := events[..|events| - 1], events[|events| - 1];
      assert front[..k] == events[..k];
      NothingReadAfterEnd(front, k);
      StepFrozen(Run(Fresh, front), e);
    }
  }

  lemma StepFrozen(c: Client, e: Event)
    requires c.ended || c.destroyed
    ensures Step(c, e).written == c.written && (Step(c, e).ended || Step(c, e).destroyed)
  {
    hide Decode, Encode, Stretch;
    match e
    case Data(chunk) => StretchFrozen(c.(buffer := c.buffer + chunk, received := c.received + chunk));
    case Resume =>
      if c.suspended > 0 {
        StretchFrozen(c.(suspended := c.suspended - 1));
      }
    case _ =>
  }

  /** `onClosed` is called exactly once a run, from the moment the client counts as closed. */
  lemma ClosedNotifiedOnce(events: seq<Event>)
    ensures Run(Fresh, events).notified == if Run(Fresh, events).closed then 1 else 0
  {
    hide Run, Accepting, Parses;
    RunKeepsReading(events);
  }

  // ----- after a close frame -----

  /** The first frame that ends a stretch: a close or a binary frame. */
  function FirstActing(frames: seq<Frame>): Option<Frame> {
    if frames == [] then None
    else if frames[0].opcode == CLOSE || frames[0].opcode == BINARY then Some(frames[0])
    else FirstActing(frames[1..])
  }

  lemma {:induction false} StretchHands(c: Client)
    ensures var first := FirstActing(Frames(c.buffer));
            Stretch(c).handed ==
            if first.Some? && first.value.opcode == BINARY then c.handed + [first.value.payload] else c.handed
    decreases |c.buffer|
  {
    hide Encode, Decode;
    match Decode(c.buffer)
    case Decoded(frame, rest) =>
      var t := c.(buffer := rest, taken := c.taken + [frame]);
      assert Frames(c.buffer) == [frame] + Frames(rest);
      assert Frames(c.buffer)[1..] == Frames(rest);
      if frame.opcode == PING {
        StretchHands(Write(t, PONG, frame.payload));
      } else if frame.opcode != CLOSE && frame.opcode != BINARY {
        StretchHands(t);
      }
    case _ =>
  }

  /** The buffer that the event drains, if it starts a stretch. */
  function Drains(c: Client, e: Event): Option<Bytes> {
    match e
    case Data(chunk) => if |c.buffer + chunk| > BUFFER_CAP then None else Some(c.buffer + chunk)
    case Resume => if c.suspended == 0 then None else Some(c.buffer)
    case _ => None
  }

  /**
   When a frame is handed over, in any state: exactly when the event starts a stretch and the
   first close or binary frame of the buffer it drains is a binary one, which is then the frame
   handed over. A close frame taken before plays no part.
   */
  lemma HandedExactly(c: Client, e: Event)
    ensures var buffer := Drains(c, e);
            var first := if buffer.Some? then FirstActing(Frames(buffer.value)) else None;
            && (Step(c, e).handed != c.handed <==> first.Some? && first.value.opcode == BINARY)
            && (Step(c, e).handed != c.handed ==> Step(c, e).handed == c.handed + [first.value.payload])
  {
    hide Decode, Encode, Stretch, Frames, FirstActing;
    match e
    case Data(chunk) => StretchHands(c.(buffer := c.buffer + chunk, received := c.received + chunk));
    case Resume =>
      if c.suspended > 0 {
        StretchHands(c.(suspended := c.suspended - 1));
      }
    case _ =>
  }

  // ----- what the bridge sends -----

  lemma ClosePayloads()
    ensures NORMAL_CLOSE == [0x03, 0xE8, 67, 108, 111, 115, 105, 110, 103, 46]
    ensures TOO_LARGE_CLOSE
            == [0x03, 0xF1, 70, 114, 97, 109, 101, 32, 116, 111, 111, 32, 108, 97, 114, 103, 101, 46]
  {
    TwoBytes(0x03, 0xE8);
    TwoBytes(0x03, 0xF1);
    ClosingReason();
    TooLargeReason();
    hide BigEndian, Ascii;
  }

  lemma ClosingReason()
    ensures Ascii("Closing.") == [67, 108, 111, 115, 105, 110, 103, 46]
  {
  }

  lemma TooLargeReason()
    ensures Ascii("Frame too large.")
            == [70, 114, 97, 109, 101, 32, 116, 111, 111, 32, 108, 97, 114, 103, 101, 46]
  {
  }

  lemma TwoBytes(high: byte, low: byte)
    ensures BigEndian(high * 256 + low, 2) == [high, low]
  {
    assert BigEndian(high, 1) == [high] by {
      assert BigEndian(0, 0) == [];
    }
  }

  /** No close, error or end event so far, and the socket not destroyed. */
  predicate IsOpen(events: seq<Event>) {
    SocketClosed !in events && SocketDestroyed !in events
  }

  /** The payloads of the `sendBinary` calls made while open. */
  function Requested(events: seq<Event>): seq<Bytes> {
    if events == [] then []
    else
      var front, last := events[..|events| - 1], events[|events| - 1];
      Requested(front) + if last.SendBinary? && IsOpen(front) then [last.payload] else []
  }

  /** The payload of the close frame that event `e` makes an open client send, if any. */
  function CloseSent(c: Client, e: Event): Option<Bytes> {
    var buffer := Drains(c, e);
    if e.CloseRequest? then Some(e.payload)
    else if e.Data? && |c.buffer| + |e.chunk| > 65536 then
      Some([0x03, 0xF1, 70, 114, 97, 109, 101, 32, 116, 111, 111, 32, 108, 97, 114, 103, 101, 46])
    else if buffer.Some? && FirstActing(Frames(buffer.value)).Some?
            && FirstActing(Frames(buffer.value)).value.opcode == 8 then
      Some([0x03, 0xE8, 67, 108, 111, 115, 105, 110, 103, 46])
    else None
  }

  function Closes(events: seq<Event>): seq<Bytes> {
    if events == [] then []
    else
      var front, last := events[..|events| - 1], events[|events| - 1];
      var sent := CloseSent(Run(Fresh, front), last);
      Closes(front) + if IsOpen(front) && sent.Some? then [sent.value] else []
  }

  /** How many suspended activations have continued. */
  function Resumed(events: seq<Event>): nat {
    if events == [] then 0
    else
      var front, last := events[..|events| - 1], events[|events| - 1];
      Resumed(front) + if last.Resume? && Run(Fresh, front).suspended > 0 then 1 else 0
  }

  lemma WriteSends(c: Client, opcode: byte, payload: Bytes, wanted: byte)
    requires opcode < 16
    ensures Select(Write(c, opcode, payload).sent, wanted)
            == Select(c.sent, wanted) + if opcode == wanted then [payload] else []
  {
    TakeOutputs(c.sent, Frame(opcode, payload), wanted);
    hide Select, Encode;
  }

  /** The frame at the head of a buffer acts, or leaves it to the rest. */
  lemma FirstActingHead(b: Bytes)
    requires Decode(b).Decoded?
    ensures var f := Decode(b).frame;
            FirstActing(Frames(b)) == if f.opcode == CLOSE || f.opcode == BINARY then Some(f)
                                      else FirstActing(Frames(Decode(b).remaining))
  {
    hide Decode;
    assert Frames(b)[1..] == Frames(Decode(b).remaining);
  }

  lemma NothingActs(b: Bytes)
    requires !Decode(b).Decoded?
    ensures FirstActing(Frames(b)) == None
  {
    hide Decode;
  }

  /** A stretch sends no binary frame, and a close frame exactly for a close frame that it reads. */
  lemma {:induction false} StretchSends(c: Client)
    ensures var d, first := Stretch(c), FirstActing(Frames(c.buffer));
            && Select(d.sent, BINARY) == Select(c.sent, BINARY)
            && Select(d.sent, CLOSE) == Select(c.sent, CLOSE) + (
                 if first.Some? && first.value.opcode == CLOSE && !c.closed && !c.destroyed then [NORMAL_CLOSE] else [])
    decreases |c.buffer|
  {
    hide Encode, Decode, Select, Frames, FirstActing;
    match Decode(c.buffer)
    case Decoded(frame, rest) =>
      var t := c.(buffer := rest, taken := c.taken + [frame]);
      FirstActingHead(c.buffer);
      if frame.opcode == PING {
        WriteSends(t, PONG, frame.payload, BINARY);
        WriteSends(t, PONG, frame.payload, CLOSE);
        StretchSends(Write(t, PONG, frame.payload));
      } else if frame.opcode == CLOSE {
        WriteSends(t, CLOSE, NORMAL_CLOSE, BINARY);
        WriteSends(t, CLOSE, NORMAL_CLOSE, CLOSE);
      } else if frame.opcode != BINARY {
        StretchSends(t);
      }
    case _ => NothingActs(c.buffer);
  }

  lemma {:induction false} StretchCounts(c: Client)
    ensures var d := Stretch(c);
            && d.closed == c.closed && d.destroyed == c.destroyed && d.overflowed == c.overflowed
            && |d.handed| + c.suspended == |c.handed| + d.suspended
    decreases |c.buffer|
  {
    hide Encode;
    match Decode(c.buffer)
    case Decoded(frame, rest) =>
      var t := c.(buffer := rest, taken := c.taken + [frame]);
      if frame.opcode == PING {
        StretchCounts(Write(t, PONG, frame.payload));
      } else if frame.opcode != CLOSE && frame.opcode != BINARY {
        StretchCounts(t);
      }
    case _ =>
  }

  lemma StepSends(c: Client, e: Event)
    ensures var d, open, close := Step(c, e), !c.closed && !c.destroyed, CloseSent(c, e);
            && d.closed == (c.closed || e.SocketClosed?) && d.destroyed == (c.destroyed || e.SocketDestroyed?)
            && d.overflowed == (c.overflowed || (e.Data? && |c.buffer| + |e.chunk| > 65536))
            && Select(d.sent, BINARY) == Select(c.sent, BINARY) + (if open && e.SendBinary? then [e.payload] else [])
            && Select(d.sent, CLOSE) == Select(c.sent, CLOSE) + (if open && close.Some? then [close.value] else [])
            && |d.handed| + c.suspended
               == |c.handed| + d.suspended + if e.Resume? && c.suspended > 0 then 1 else 0
  {
    ClosePayloads();
    hide Decode, Encode, Stretch, Frames, FirstActing, Select;
    match e
    case Data(chunk) =>
      var t := c.(buffer := c.buffer + chunk, received := c.received + chunk);
      WriteSends(t.(overflowed := true), CLOSE, TOO_LARGE_CLOSE, BINARY);
      WriteSends(t.(overflowed := true), CLOSE, TOO_LARGE_CLOSE, CLOSE);
      StretchSends(t);
      StretchCounts(t);
    case Resume =>
      if c.suspended > 0 {
        StretchSends(c.(suspended := c.suspended - 1));
        StretchCounts(c.(suspended := c.suspended - 1));
      }
    case SendBinary(payload) =>
      WriteSends(c, BINARY, payload, BINARY);
      WriteSends(c, BINARY, payload, CLOSE);
    case CloseRequest(payload) =>
      WriteSends(c, CLOSE, payload, BINARY);
      WriteSends(c, CLOSE, payload, CLOSE);
    case _ =>
  }

  /**
   In every run, the binary frames sent carry exactly the payloads of the `sendBinary` calls made
   while the client was open, in order; the close frames sent are those asked for then, one with
   status 1009 for each chunk that took the buffer above 65536 bytes, and one with status 1000 for
   each close frame that a stretch read; and the handler has settled once for every payload handed
   over that no activation still waits for.
   */
  lemma {:induction false} SentExactly(events: seq<Event>)
    ensures var c := Run(Fresh, events);
            && Select(c.sent, 0x2) == Requested(events)
            && Select(c.sent, 0x8) == Closes(events)
            && (!c.closed && !c.destroyed <==> IsOpen(events))
            && |c.handed| == c.suspended + Resumed(events)
  {
    hide Step, Select, CloseSent;
    if events == [] {
      assert Select([], 0x2) == [] && Select([], 0x8) == [] by { SelectNothing(); }
    } else {
      var front, last := events[..|events| - 1], events[|events| - 1];
      SentExactly(front);
      StepSends(Run(Fresh, front), last);
      assert events == front + [last];
    }
  }

  lemma SelectNothing()
    ensures forall opcode :: Select([], opcode) == []
  {
  }

  lemma OverflowStep(c: Client, e: Event)
    ensures Step(c, e).overflowed <==> c.overflowed || (e.Data? && |c.buffer| + |e.chunk| > 65536)
  {
    hide Step, Select, CloseSent;
    StepSends(c, e);
  }

  /** The cap was hit exactly when some chunk took the buffer above 65536 bytes. */
  lemma {:induction false} OverflowExactly(events: seq<Event>)
    ensures Run(Fresh, events).overflowed
            <==> exists k :: 0 <= k < |events| && events[k].Data?
                             && |Run(Fresh, events[..k]).buffer| + |events[k].chunk| > 65536
  {
    hide Step;
    if events != [] {
      var n := |events| - 1;
      var front := events[..n];
      OverflowExactly(front);
      OverflowStep(Run(Fresh, front), events[n]);
      hide Run;
      if Run(Fresh, front).overflowed {
        var k :| 0 <= k < n && front[k].Data? && |Run(Fresh, front[..k]).buffer| + |front[k].chunk| > 65536;
        assert front[..k] == events[..k];
      }
      forall k | 0 <= k < n
        ensures front[..k] == events[..k]
      {
      }
    }
  }

  /**
   Both ways a frame is handed over after a close frame was read: in a later chunk, and from the
   chunk of the close frame itself by an activation that was suspended before.
   */
  lemma DeliversAfterClose()
    ensures var c := Run(Fresh, [Data(Encode(CLOSE, [])), Data(Encode(BINARY, [65]))]);
            HasClose(c.taken) && c.handed == [[65]]
    ensures var c := Run(Fresh, [Data(Encode(BINARY, [65])), Data(Encode(CLOSE, []) + Encode(BINARY, [66])), Resume]);
            c.taken == [Frame(BINARY, [65]), Frame(CLOSE, []), Frame(BINARY, [66])] && c.handed == [[65], [66]]
  {
    LaterChunk();
    SuspendedActivation();
  }

  lemma LaterChunk()
    ensures var c := Run(Fresh, [Data(Encode(CLOSE, [])), Data(Encode(BINARY, [65]))]);
            HasClose(c.taken) && c.handed == [[65]]
  {
    hide Decode, Encode;
    var first, second := Encode(CLOSE, []), Encode(BINARY, [65]);
    var events := [Data(first), Data(second)];
    ShortFrames();
    EncodeDecode(CLOSE, [], []);
    EncodeDecode(BINARY, [65], []);
    assert first + [] == first && second + [] == second && [] + first == first && [] + second == second;
    assert events[..1] == [Data(first)] && events[..1][..0] == [];
    var c := Run(Fresh, [Data(first)]);
    assert c == Step(Run(Fresh, []), Data(first)) by {
      assert [Data(first)][..0] == [];
    }
    assert c.taken == [Frame(CLOSE, [])] && c.buffer == [];
    var d := Step(c, Data(second));
    assert d.taken == [Frame(CLOSE, []), Frame(BINARY, [65])];
    assert Frame(CLOSE, []) in d.taken;
    assert Run(Fresh, events) == d;
  }

  lemma SuspendedActivation()
    ensures var c := Run(Fresh, [Data(Encode(BINARY, [65])), Data(Encode(CLOSE, []) + Encode(BINARY, [66])), Resume]);
            c.taken == [Frame(BINARY, [65]), Frame(CLOSE, []), Frame(BINARY, [66])] && c.handed == [[65], [66]]
  {
    hide Decode, Encode;
    var binary, close, last := Encode(BINARY, [65]), Encode(CLOSE, []), Encode(BINARY, [66]);
    var events := [Data(binary), Data(close + last), Resume];
    ShortFrames();
    EncodeDecode(BINARY, [65], []);
    EncodeDecode(CLOSE, [], last);
    EncodeDecode(BINARY, [66], []);
    assert binary + [] == binary && last + [] == last && [] + binary == binary && [] + (close + last) == close + last;
    assert events[..2] == [Data(binary), Data(close + last)];
    assert events[..2][..1] == [Data(binary)] && [Data(binary)][..0] == [];
    var c1 := Step(Fresh, Data(binary));
    assert c1.buffer == [] && c1.suspended == 1 && c1.taken == [Frame(BINARY, [65])] && c1.handed == [[65]];
    var c2 := Step(c1, Data(close + last));
    assert c2.buffer == last && c2.suspended == 1 && c2.handed == [[65]];
    assert c2.taken == [Frame(BINARY, [65]), Frame(CLOSE, [])];
    var c3 := Step(c2, Resume);
    assert c3.taken == c2.taken + [Frame(BINARY, [66])] && c3.handed == [[65], [66]];
    hide Step;
    assert Run(Fresh, [Data(binary)]) == c1;
    assert Run(Fresh, events[..2]) == c2;
  }

  lemma ShortFrames()
    ensures |Encode(CLOSE, [])| == 2 && |Encode(BINARY, [65])| == 3 && |Encode(BINARY, [66])| == 3
  {
  }

  // ----- the class -----

  class BridgeClient {
    var buffer: Bytes
    var closed: bool
    var destroyed: bool
    var ended: bool
    var suspended: nat
    var handed: seq<Bytes>
    var written: seq<Bytes>
    var notified: nat
    ghost var received: Bytes
    ghost var taken: seq<Frame>
    ghost var sent: seq<Frame>
    ghost var accepted: seq<Frame>
    ghost var overflowed: bool

    ghost function View(): Client
      reads this
    {
      Client(buffer, closed, destroyed, ended, suspended, handed, written, notified,
             received, taken, sent, accepted, overflowed)
    }

    constructor ()
      ensures View() == Fresh
    {
      buffer, closed, destroyed, ended, suspended := [], false, false, false, 0;
      handed, written, notified := [], [], 0;
      received, taken, sent, accepted, overflowed := [], [], [], [], false;
    }

    /** `socket.write(encodeWebSocketFrame(opcode, payload))`. */
    method WriteFrame(opcode: byte, payload: Bytes)
      requires opcode < 16
      modifies this`written, this`sent, this`accepted
      ensures View() == Write(old(View()), opcode, payload)
    {
      sent := sent + [Frame(opcode, payload)];
      if ended || destroyed {
        return;
      }
      written := written + [Encode(opcode, payload)];
      accepted := accepted + [Frame(opcode, payload)];
    }

    method Close(payload: Bytes)
      modifies this`written, this`sent, this`accepted, this`ended
      ensures View() == SendClose(old(View()), payload)
    {
      if closed || destroyed {
        return;
      }
      WriteFrame(CLOSE, payload);
      ended := true;
    }

    /** `drain()`, from the top of its loop to its next await or its end. */
    method Drain()
      modifies this
      ensures View() == Stretch(old(View()))
    {
      hide Decode, Encode;
      while true
        invariant Stretch(View()) == Stretch(old(View()))
        decreases |buffer|
      {
        var decoded := DecodeFrame(buffer);
        if !decoded.Decoded? {
          return;
        }
        var frame := decoded.frame;
        buffer := decoded.remaining;
        taken := taken + [frame];
        if frame.opcode == CLOSE {
          Close(NORMAL_CLOSE);
          return;
        }
        if frame.opcode == PING {
          WriteFrame(PONG, frame.payload);
        } else if frame.opcode == BINARY {
          handed := handed + [frame.payload];
          suspended := suspended + 1;
          return;
        }
      }
    }

    method OnData(chunk: Bytes)
      modifies this
      ensures View() == Step(old(View()), Data(chunk))
    {
      hide Decode, Encode, Stretch;
      buffer := buffer + chunk;
      received := received + chunk;
      if |buffer| > BUFFER_CAP {
        overflowed := true;
        Close(TOO_LARGE_CLOSE);
        return;
      }
      Drain();
    }

    /** The handler of one suspended activation has settled. */
    method OnHandlerSettled()
      modifies this
      ensures View() == Step(old(View()), Resume)
    {
      hide Decode, Encode, Stretch;
      if suspended > 0 {
        suspended := suspended - 1;
        Drain();
      }
    }

    method Send(payload: Bytes)
      modifies this
      ensures View() == Step(old(View()), SendBinary(payload))
    {
      if closed || destroyed {
        return;
      }
      WriteFrame(BINARY, payload);
    }

    method HandleClosed()
      modifies this`closed, this`notified
      ensures View() == Step(old(View()), SocketClosed)
    {
      if closed {
        return;
      }
      closed := true;
      notified := notified + 1;
    }
  }
}
