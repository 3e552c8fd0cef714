/**
 The frame codec of the WebSocket bridge.

 `Wire` is an independent description of what sections 5.2 and 5.3 of RFC 6455 let a
 peer put on the wire: any first byte, any of the three length forms, with or without a
 masking key. The encoder and the decoder of the bridge are proved against it.
 */
module WebSocketFrames {
  import opened Collections
  import opened Octets

  /** The largest length `Number.isSafeInteger` accepts, 2^53 - 1. */
  const MAX_SAFE_LENGTH: nat := 0x1F_FFFF_FFFF_FFFF

  datatype Frame = Frame(opcode: byte, payload: Bytes)

  datatype DecodeResult =
    | Incomplete
    | TooLarge
    | Decoded(frame: Frame, remaining: Bytes)

  // ----- big-endian numbers -----

  function Pow256(k: nat): (p: nat)
    ensures p > 0
  {
    if k == 0 then 1 else 256 * Pow256(k - 1)
  }

  function BigEndian(n: nat, k: nat): (s: Bytes)
    ensures |s| == k
  {
    if k == 0 then [] else BigEndian(n / 256, k - 1) + [n % 256]
  }

  function FromBigEndian(s: Bytes): nat {
    if s == [] then 0 else FromBigEndian(s[..|s| - 1]) * 256 + s[|s| - 1]
  }

  lemma {:induction false} FromBigEndianBounded(s: Bytes)
    ensures FromBigEndian(s) < Pow256(|s|)
  {
    if s != [] {
      FromBigEndianBounded(s[..|s| - 1]);
    }
  }

  lemma {:induction false} BigEndianRoundTrip(n: nat, k: nat)
    requires n < Pow256(k)
    ensures FromBigEndian(BigEndian(n, k)) == n
  {
    if k > 0 {
      BigEndianRoundTrip(n / 256, k - 1);
      var s := BigEndian(n, k);
      assert s[..|s| - 1] == BigEndian(n / 256, k - 1);
    }
  }

  lemma {:induction false} BigEndianUnique(s: Bytes)
    ensures BigEndian(FromBigEndian(s), |s|) == s
  {
    if s != [] {
      BigEndianUnique(s[..|s| - 1]);
      assert s == s[..|s| - 1] + [s[|s| - 1]];
    }
  }

  // ----- masking, section 5.3 of RFC 6455 -----

  /** Bitwise exclusive or of two octets, bit by bit from the lowest. */
  function Xor(a: byte, b: byte): byte {
    assert Pow2(8) == 256 by { assert Pow2(4) == 16; }
    XorBits(a, b, 8)
  }

  function XorBits(a: nat, b: nat, bits: nat): (x: nat)
    ensures x < Pow2(bits)
  {
    if bits == 0 then 0 else (a + b) % 2 + 2 * XorBits(a / 2, b / 2, bits - 1)
  }

  function Unmask(payload: Bytes, key: Bytes): (u: Bytes)
    requires |key| == 4
    ensures |u| == |payload|
  {
    seq(|payload|, i requires 0 <= i < |payload| => Xor(payload[i], key[i % 4]))
  }

  /** Applying the same key twice gives the payload back: masking and unmasking are one operation. */
  lemma UnmaskInvolution(payload: Bytes, key: Bytes)
    requires |key| == 4
    ensures Unmask(Unmask(payload, key), key) == payload
  {
    forall i | 0 <= i < |payload|
      ensures Unmask(Unmask(payload, key), key)[i] == payload[i]
    {
      assert Pow2(8) == 256 by { assert Pow2(4) == 16; }
      XorBitsTwice(payload[i], key[i % 4], 8);
    }
  }

  lemma {:induction false} XorBitsTwice(a: nat, b: nat, bits: nat)
    requires a < Pow2(bits)
    ensures XorBits(XorBits(a, b, bits), b, bits) == a
  {
    if bits > 0 {
      hide XorBits, Pow2;
      HalfBelow(a, bits);
      XorBitsTwice(a / 2, b / 2, bits - 1);
      var x, high := XorBits(a, b, bits), XorBits(a / 2, b / 2, bits - 1);
      XorBitsStep(a, b, bits);
      LowBitOfXor(a, b, high);
      XorBitsStep(x, b, bits);
      assert x / 2 == high && (x + b) % 2 == a % 2;
      Recombine(a);
    } else {
      NoBits(a, b);
    }
  }

  predicate Bit(n: nat, k: nat) {
    if k == 0 then n % 2 == 1 else Bit(n / 2, k - 1)
  }

  /** A bit of the result is set exactly when the bits of the operands differ. */
  lemma {:induction false} XorExactly(a: nat, b: nat, bits: nat, k: nat)
    requires k < bits
    ensures Bit(XorBits(a, b, bits), k) <==> Bit(a, k) != Bit(b, k)
  {
    XorBitsStep(a, b, bits);
    hide XorBits;
    LowBitOfXor(a, b, XorBits(a / 2, b / 2, bits - 1));
    if k > 0 {
      XorExactly(a / 2, b / 2, bits - 1, k - 1);
    }
  }

  /** Unmasking combines each octet with its key octet, bit by bit. */
  lemma UnmaskExactly(payload: Bytes, key: Bytes, i: nat, k: nat)
    requires |key| == 4 && i < |payload| && k < 8
    ensures Bit(Unmask(payload, key)[i], k) <==> Bit(payload[i], k) != Bit(key[i % 4], k)
  {
    XorExactly(payload[i], key[i % 4], 8, k);
    hide XorBits;
  }

  lemma Recombine(a: nat)
    ensures a % 2 + 2 * (a / 2) == a
  {
  }

  lemma NoBits(a: nat, b: nat)
    requires a < Pow2(0)
    ensures XorBits(XorBits(a, b, 0), b, 0) == a
  {
  }

  lemma HalfBelow(a: nat, bits: nat)
    requires bits > 0 && a < Pow2(bits)
    ensures a / 2 < Pow2(bits - 1)
  {
  }

  lemma XorBitsStep(a: nat, b: nat, bits: nat)
    requires bits > 0
    ensures XorBits(a, b, bits) == (a + b) % 2 + 2 * XorBits(a / 2, b / 2, bits - 1)
  {
  }

  lemma LowBitOfXor(a: nat, b: nat, high: nat)
    ensures var x := (a + b) % 2 + 2 * high;
            x / 2 == high && (x + b) % 2 == a % 2
  {
  }

  // ----- what may appear on the wire -----

  datatype LengthForm = Short | Medium | Long

  /** One frame as RFC 6455 lays it out. `first` holds FIN, the reserved bits and the opcode. */
  datatype Wire = Wire(first: byte, form: LengthForm, mask: Option<Bytes>, payload: Bytes) {

    ghost predicate Valid() {
      && (mask.Some? ==> |mask.value| == 4)
      && match form
         case Short => |payload| < 126
         case Medium => |payload| < 65536
         case Long => |payload| <= MAX_SAFE_LENGTH
    }

    function MaskBit(): int {
      if mask.Some? then 128 else 0
    }

    /** The mask bit and the seven-bit length. */
    function Second(): byte
      requires form.Short? ==> |payload| < 126
    {
      match form
      case Short => MaskBit() + |payload|
      case Medium => MaskBit() + 126
      case Long => MaskBit() + 127
    }

    function Extended(): Bytes {
      match form
      case Short => []
      case Medium => BigEndian(|payload|, 2)
      case Long => BigEndian(|payload|, 8)
    }

    function Key(): Bytes {
      if mask.Some? then mask.value else []
    }

    function Body(): Bytes
      requires mask.Some? ==> |mask.value| == 4
    {
      if mask.Some? then Unmask(payload, mask.value) else payload
    }

    function Header(): Bytes
      requires form.Short? ==> |payload| < 126
    {
      [first, Second()] + Extended()
    }

    function Bytes(): Bytes
      requires mask.Some? ==> |mask.value| == 4
      requires form.Short? ==> |payload| < 126
    {
      Header() + Key() + Body()
    }
  }

  /** The frame the bridge itself sends: FIN set, unmasked, the shortest length form. */
  function ServerWire(opcode: int, payload: Bytes): (w: Wire)
    ensures |payload| <= MAX_SAFE_LENGTH ==> w.Valid()
  {
    Wire(128 + opcode % 16,
         if |payload| < 126 then Short else if |payload| < 65536 then Medium else Long,
         None, payload)
  }

  function Encode(opcode: int, payload: Bytes): Bytes {
    ServerWire(opcode, payload).Bytes()
  }

  /** The header bytes `encodeWebSocketFrame` writes before copying the payload. */
  method WriteHeader(frame: array<byte>, opcode: int, payload: Bytes)
    requires |payload| <= MAX_SAFE_LENGTH
    requires frame.Length == |ServerWire(opcode, payload).Header()| + |payload|
    modifies frame
    ensures frame[..frame.Length - |payload|] == ServerWire(opcode, payload).Header()
  {
    hide BigEndian;
    var n := |payload|;
    frame[0] := 128 + opcode % 16;
    if n < 126 {
      frame[1] := n;
    } else if n < 65536 {
      frame[1] := 126;
      frame[2] := n / 256;
      frame[3] := n % 256;
      TwoByteLength(n);
    } else {
      frame[1] := 127;
      var ext := BigEndian(n, 8);
      forall i | 0 <= i < 8 {
        frame[2 + i] := ext[i];
      }
    }
  }

  lemma ServerLayout(opcode: int, payload: Bytes)
    requires |payload| <= MAX_SAFE_LENGTH
    ensures var w := ServerWire(opcode, payload);
            && |w.Header()| == (if |payload| < 126 then 2 else if |payload| < 65536 then 4 else 10)
            && w.Bytes() == w.Header() + payload
  {
    hide BigEndian;
    var w := ServerWire(opcode, payload);
    assert w.Key() == [] && w.Body() == payload;
    assert w.Header() + [] + payload == w.Header() + payload;
  }

  /** `frame.set(payload, start)`. */
  method CopyPayload(frame: array<byte>, start: nat, payload: Bytes)
    requires frame.Length == start + |payload|
    modifies frame
    ensures frame[..] == old(frame[..start]) + payload
  {
    forall i | 0 <= i < |payload| {
      frame[start + i] := payload[i];
    }
    assert frame[..start] == old(frame[..start]) && frame[start..] == payload;
    assert frame[..] == frame[..start] + frame[start..];
  }

  /** `encodeWebSocketFrame`: fills a fresh buffer and produces exactly the RFC layout. */
  method EncodeFrame(opcode: int, payload: Bytes) returns (frame: array<byte>)
    requires |payload| <= MAX_SAFE_LENGTH
    ensures fresh(frame)
    ensures frame[..] == ServerWire(opcode, payload).Bytes()
  {
    hide ServerWire, BigEndian;
    ServerLayout(opcode, payload);
    var header := if |payload| < 126 then 2 else if |payload| < 65536 then 4 else 10;
    frame := new byte[header + |payload|];
    WriteHeader(frame, opcode, payload);
    CopyPayload(frame, header, payload);
  }

  lemma TwoByteLength(n: nat)
    requires n < 65536
    ensures BigEndian(n, 2) == [n / 256, n % 256]
  {
    assert BigEndian(n / 256, 1) == BigEndian(n / 256 / 256, 0) + [n / 256];
  }

  // ----- the decoder -----

  datatype Span = Span(offset: nat, length: nat)

  /** Where the length field ends and what it says; None while it is still arriving. */
  function LengthField(b: Bytes): (s: Option<Span>)
    requires |b| >= 2
    ensures s.Some? ==> 2 <= s.value.offset <= |b|
  {
    var short := b[1] % 128;
    if short == 126 then
      if |b| < 4 then None else Some(Span(4, FromBigEndian(b[2..4])))
    else if short == 127 then
      if |b| < 10 then None else Some(Span(10, FromBigEndian(b[2..10])))
    else
      Some(Span(2, short))
  }

  function IsMasked(b: Bytes): bool
    requires |b| >= 2
  {
    b[1] >= 128
  }

  function DecodeBody(b: Bytes, span: Span): (r: DecodeResult)
    requires |b| >= 2 && 2 <= span.offset
    ensures r.Decoded? ==> |r.remaining| + 2 <= |b|
    ensures !r.TooLarge?
  {
    var start := span.offset + (if IsMasked(b) then 4 else 0);
    var end := start + span.length;
    if |b| < end then Incomplete
    else
      var raw := b[start..end];
      var payload := if IsMasked(b) then Unmask(raw, b[span.offset..start]) else raw;
      Decoded(Frame(b[0] % 16, payload), b[end..])
  }

  function Decode(b: Bytes): (r: DecodeResult)
    ensures r.Decoded? ==> |r.remaining| + 2 <= |b|
  {
    if |b| < 2 then Incomplete
    else match LengthField(b)
         case None => Incomplete
         case Some(span) =>
           if span.offset == 10 && span.length > MAX_SAFE_LENGTH then TooLarge
           else DecodeBody(b, span)
  }

  /** The byte-by-byte unmasking loop of `decodeWebSocketFrame`. */
  method UnmaskBytes(payload: Bytes, key: Bytes) returns (u: Bytes)
    requires |key| == 4
    ensures u == Unmask(payload, key)
  {
    var unmasked := new byte[|payload|];
    var i := 0;
    while i < |payload|
      invariant 0 <= i <= |payload|
      invariant forall j :: 0 <= j < i ==> unmasked[j] == Xor(payload[j], key[j % 4])
    {
      hide XorBits;
      unmasked[i] := Xor(payload[i], key[i % 4]);
      i := i + 1;
    }
    u := unmasked[..];
  }

  /** `decodeWebSocketFrame`. */
  method DecodeFrame(buffer: Bytes) returns (r: DecodeResult)
    ensures r == Decode(buffer)
  {
    hide Unmask;
    if |buffer| < 2 {
      return Incomplete;
    }
    var opcode := buffer[0] % 16;
    var offset := 2;
    var length := buffer[1] % 128;
    if length == 126 {
      if |buffer| < 4 {
        return Incomplete;
      }
      length, offset := FromBigEndian(buffer[2..4]), 4;
    } else if length == 127 {
      if |buffer| < 10 {
        return Incomplete;
      }
      length, offset := FromBigEndian(buffer[2..10]), 10;
      if length > MAX_SAFE_LENGTH {
        return TooLarge;
      }
    }
    var masked := buffer[1] >= 128;
    var start := offset + (if masked then 4 else 0);
    var end := start + length;
    if |buffer| < end {
      return Incomplete;
    }
    var payload := buffer[start..end];
    if masked {
      payload := UnmaskBytes(payload, buffer[offset..start]);
    }
    r := Decoded(Frame(opcode, payload), buffer[end..]);
  }

  // ----- decoder against the wire format -----

  /** The extended length of a valid frame reads back as the payload length. */
  lemma ExtendedLength(w: Wire)
    requires w.Valid() && !w.form.Short?
    ensures FromBigEndian(w.Extended()) == |w.payload|
  {
    Pow256Of8();
    assert Pow256(2) == 65536;
    BigEndianRoundTrip(|w.payload|, |w.Extended()|);
  }

  /** The header of a valid frame is read back exactly. */
  lemma HeaderReads(w: Wire)
    requires w.Valid()
    ensures IsMasked(w.Header()) == w.mask.Some?
    ensures LengthField(w.Header()) == Some(Span(|w.Header()|, |w.payload|))
  {
    var h := w.Header();
    assert h[1] == w.Second();
    if !w.form.Short? {
      ExtendedLength(w);
      assert h[2..|h|] == w.Extended();
    }
  }

  /** A length field that has arrived is not changed by what follows it. */
  lemma LengthFieldExtends(b: Bytes, more: Bytes)
    requires |b| >= 2 && LengthField(b).Some?
    ensures LengthField(b + more) == LengthField(b)
    ensures IsMasked(b + more) == IsMasked(b)
  {
    var offset := LengthField(b).value.offset;
    assert (b + more)[2..offset] == b[2..offset];
  }

  lemma Pow256Of2()
    ensures Pow256(2) == 65536
  {
  }

  lemma Pow256Of8()
    ensures Pow256(8) == 0x1_0000_0000_0000_0000
  {
    assert Pow256(4) == 0x1_0000_0000 by {
      assert Pow256(2) == 65536;
      assert Pow256(3) == 256 * 65536;
    }
    assert Pow256(6) == 0x1_0000_0000_0000 by {
      assert Pow256(5) == 256 * Pow256(4);
    }
    assert Pow256(7) == 256 * Pow256(6);
  }

  lemma DecodeBodySplit(b: Bytes, h: Bytes, key: Bytes, raw: Bytes, rest: Bytes)
    requires b == h + key + raw + rest && |h| >= 2
    requires |key| == if IsMasked(b) then 4 else 0
    ensures DecodeBody(b, Span(|h|, |raw|))
            == Decoded(Frame(h[0] % 16, if IsMasked(b) then Unmask(raw, key) else raw), rest)
  {
    hide Unmask;
    var start := |h| + |key|;
    var end := start + |raw|;
    assert b[|h|..start] == key;
    assert b[start..end] == raw;
    assert b[end..] == rest;
  }

  lemma DecodeAssembled(h: Bytes, key: Bytes, raw: Bytes, rest: Bytes)
    requires |h| >= 2 && LengthField(h) == Some(Span(|h|, |raw|)) && |raw| <= MAX_SAFE_LENGTH
    requires |key| == if IsMasked(h) then 4 else 0
    ensures Decode(h + key + raw + rest)
            == Decoded(Frame(h[0] % 16, if IsMasked(h) then Unmask(raw, key) else raw), rest)
  {
    hide Unmask, LengthField, DecodeBody;
    var b := h + key + raw + rest;
    assert b == h + (key + raw + rest);
    LengthFieldExtends(h, key + raw + rest);
    DecodeBodySplit(b, h, key, raw, rest);
  }

  /** Any valid frame followed by any bytes decodes to its opcode, its unmasked payload and those bytes. */
  lemma DecodeWire(w: Wire, rest: Bytes)
    requires w.Valid()
    ensures Decode(w.Bytes() + rest) == Decoded(Frame(w.first % 16, w.payload), rest)
  {
    hide Unmask, Decode, LengthField;
    HeaderReads(w);
    DecodeAssembled(w.Header(), w.Key(), w.Body(), rest);
    if w.mask.Some? {
      UnmaskInvolution(w.payload, w.mask.value);
    }
  }

  /** Every strict prefix of a valid frame is "incomplete". */
  lemma StrictPrefixIncomplete(w: Wire, k: nat)
    requires w.Valid() && k < |w.Bytes()|
    ensures Decode(w.Bytes()[..k]) == Incomplete
  {
    var b := w.Bytes();
    var p := b[..k];
    DecodeExtends(p, b[k..]);
    assert p + b[k..] == b == b + [];
    DecodeWire(w, []);
  }

  /** The wire frame at the head of a buffer that decodes. */
  function HeadFrame(b: Bytes): Wire
    requires Decode(b).Decoded?
  {
    var span := LengthField(b).value;
    Wire(b[0],
         if span.offset == 2 then Short else if span.offset == 4 then Medium else Long,
         if IsMasked(b) then Some(b[span.offset..span.offset + 4]) else None,
         Decode(b).frame.payload)
  }

  lemma HeadFrameHeader(b: Bytes)
    requires Decode(b).Decoded?
    ensures HeadFrame(b).Valid() && HeadFrame(b).Header() == b[..LengthField(b).value.offset]
  {
    hide BigEndian, FromBigEndian, Pow256, Unmask;
    var w := HeadFrame(b);
    var span := LengthField(b).value;
    var ext := b[2..span.offset];
    FromBigEndianBounded(ext);
    BigEndianUnique(ext);
    Pow256Of2();
    assert |w.payload| == span.length;
    assert w.Extended() == ext;
    assert w.Second() == b[1];
    assert b[..span.offset] == [b[0], b[1]] + ext;
  }

  lemma RestoreBody(w: Wire, key: Bytes, raw: Bytes)
    requires w.mask == (if key == [] then None else Some(key)) && (key == [] || |key| == 4)
    requires w.payload == if key == [] then raw else Unmask(raw, key)
    ensures w.Key() == key && w.Body() == raw
  {
    if key != [] {
      UnmaskInvolution(raw, key);
    }
  }

  lemma SplitAt(b: Bytes, i: nat, j: nat, k: nat)
    requires i <= j <= k <= |b|
    ensures b == b[..i] + b[i..j] + b[j..k] + b[k..]
  {
  }

  /** Whatever the decoder accepts is a valid frame of RFC 6455 followed by the bytes it gives back. */
  lemma DecodeSound(b: Bytes)
    requires Decode(b).Decoded?
    ensures HeadFrame(b).Valid()
    ensures b == HeadFrame(b).Bytes() + Decode(b).remaining
    ensures Decode(b).frame == Frame(HeadFrame(b).first % 16, HeadFrame(b).payload)
  {
    HeadFrameHeader(b);
    var w := HeadFrame(b);
    var span := LengthField(b).value;
    var start := span.offset + (if IsMasked(b) then 4 else 0);
    var end := start + span.length;
    RestoreBody(w, b[span.offset..start], b[start..end]);
    SplitAt(b, span.offset, start, end);
  }

  /** The decoder accepts exactly the buffers that start with a valid frame. */
  lemma DecodeExact(b: Bytes, frame: Frame, rest: Bytes)
    ensures Decode(b) == Decoded(frame, rest)
            <==> exists w: Wire :: w.Valid() && b == w.Bytes() + rest && frame == Frame(w.first % 16, w.payload)
  {
    if Decode(b) == Decoded(frame, rest) {
      DecodeSound(b);
    }
    forall w: Wire | w.Valid() && b == w.Bytes() + rest && frame == Frame(w.first % 16, w.payload)
      ensures Decode(b) == Decoded(frame, rest)
    {
      DecodeWire(w, rest);
    }
  }

  /** Encoding then decoding: the opcode's low four bits, the payload, and exactly the bytes that follow. */
  lemma EncodeDecode(opcode: int, payload: Bytes, rest: Bytes)
    requires |payload| <= MAX_SAFE_LENGTH
    ensures Decode(Encode(opcode, payload) + rest) == Decoded(Frame(opcode % 16, payload), rest)
  {
    DecodeWire(ServerWire(opcode, payload), rest);
  }

  // ----- streams -----

  /** More bytes never change a frame that is already there, nor rescue an oversized one. */
  lemma DecodeExtends(b: Bytes, more: Bytes)
    ensures Decode(b).Decoded? ==> Decode(b + more) == Decoded(Decode(b).frame, Decode(b).remaining + more)
    ensures Decode(b).TooLarge? ==> Decode(b + more).TooLarge?
  {
    hide LengthField, Unmask;
    if !Decode(b).Incomplete? {
      LengthFieldExtends(b, more);
      if Decode(b).Decoded? {
        var span := LengthField(b).value;
        var start := span.offset + (if IsMasked(b) then 4 else 0);
        DecodeBodyExtends(b, more, span.offset, start, start + span.length);
      }
    }
  }

  lemma DecodeBodyExtends(b: Bytes, more: Bytes, offset: nat, start: nat, end: nat)
    requires 2 <= offset <= start <= end <= |b|
    requires start == offset + (if IsMasked(b) then 4 else 0)
    requires IsMasked(b + more) == IsMasked(b)
    ensures DecodeBody(b + more, Span(offset, end - start))
            == Decoded(DecodeBody(b, Span(offset, end - start)).frame, b[end..] + more)
  {
    SplitAt(b, offset, start, end);
    DecodeBodySplit(b, b[..offset], b[offset..start], b[start..end], b[end..]);
    assert b + more == b[..offset] + b[offset..start] + b[start..end] + (b[end..] + more);
    DecodeBodySplit(b + more, b[..offset], b[offset..start], b[start..end], b[end..] + more);
  }

  /** All complete frames of a byte stream, in order. */
  function Frames(b: Bytes): seq<Frame>
    decreases |b|
  {
    match Decode(b)
    case Decoded(frame, rest) => [frame] + Frames(rest)
    case _ => []
  }

  /** What is left of a stream after its complete frames. */
  function Tail(b: Bytes): Bytes
    decreases |b|
  {
    match Decode(b)
    case Decoded(_, rest) => Tail(rest)
    case _ => b
  }

  /** Reading a stream in two pieces gives the same frames and the same leftover as reading it whole. */
  lemma {:induction false} FramesSplit(b: Bytes, more: Bytes)
    ensures Frames(b + more) == Frames(b) + Frames(Tail(b) + more)
    ensures Tail(b + more) == Tail(Tail(b) + more)
    decreases |b|
  {
    hide Decode;
    DecodeExtends(b, more);
    match Decode(b)
    case Decoded(frame, rest) =>
      FramesSplit(rest, more);
    case _ =>
  }

  function Flatten(chunks: seq<Bytes>): Bytes {
    if chunks == [] then [] else Flatten(chunks[..|chunks| - 1]) + chunks[|chunks| - 1]
  }

  /** A buffer is refused as too large exactly when its eight-byte length is beyond 2^53 - 1. */
  lemma TooLargeExactly(b: Bytes)
    ensures Decode(b) == TooLarge
            <==> |b| >= 10 && b[1] % 128 == 127 && FromBigEndian(b[2..10]) > 9007199254740991
  {
    hide FromBigEndian;
  }

  /** The layout of an encoded frame in numbers: FIN and opcode, the shortest length form, and the payload as it is. */
  lemma EncodeLayout(opcode: nat, payload: Bytes)
    requires opcode < 16 && |payload| <= MAX_SAFE_LENGTH
    ensures var b, n := Encode(opcode, payload), |payload|;
            && (n < 126 ==> b == [128 + opcode, n] + payload)
            && (126 <= n < 65536 ==> b == [128 + opcode, 126, n / 256, n % 256] + payload)
            && (65536 <= n ==> |b| == 10 + n && b[..2] == [128 + opcode, 127]
                               && FromBigEndian(b[2..10]) == n && b[10..] == payload)
  {
    var n := |payload|;
    var ext := BigEndian(n, 8);
    ServerLayout(opcode, payload);
    if 126 <= n < 65536 {
      TwoByteLength(n);
    }
    Pow256Of8();
    BigEndianRoundTrip(n, 8);
    hide BigEndian, FromBigEndian;
    if n >= 65536 {
      assert Encode(opcode, payload) == [128 + opcode, 127] + ext + payload;
    }
  }
}
