/**
 The OSD shorthand blob: a header, at most sixteen fixed-width entries and a stored CRC.

 A JavaScript string is its sequence of UTF-16 code units; `& 0xff` keeps a unit modulo 256.
 */
module OsdShorthand {
  import opened Collections
  import opened Octets
  import opened OsdCrc

  const MAX_ENTRIES: nat := 16
  const FROM_LEN: nat := 16
  const TO_LEN: nat := 10
  const ENTRY_LEN: nat := 26
  const HEADER_LEN: nat := 4
  const CRC_LEN: nat := 4

  type CodeUnit = x: int | 0 <= x < 65536
  type Text = seq<CodeUnit>

  datatype Entry = Entry(from: Text, to: Text)

  datatype ParseError = TooShort | BadMagic | BadVersion | TooManyEntries | Truncated | CrcMismatch

  // ----- fixed-width fields -----

  predicate Blank(b: int) {
    b == 0 || b == 0x20
  }

  function Strip(s: Text): Text {
    if s != [] && Blank(s[|s| - 1]) then Strip(s[..|s| - 1]) else s
  }

  /** `Strip` removes exactly the trailing NULs and spaces. */
  lemma {:induction false} StripMeaning(s: Text)
    ensures Strip(s) <= s
    ensures Strip(s) == [] || !Blank(Strip(s)[|Strip(s)| - 1])
    ensures forall i :: |Strip(s)| <= i < |s| ==> Blank(s[i])
  {
    if s != [] && Blank(s[|s| - 1]) {
      StripMeaning(s[..|s| - 1]);
    }
  }

  lemma {:induction false} StripPadding(s: Text, pad: Text)
    requires forall i :: 0 <= i < |pad| ==> pad[i] == 0
    ensures Strip(s + pad) == Strip(s)
  {
    if pad == [] {
      assert s + pad == s;
    } else {
      assert (s + pad)[..|s + pad| - 1] == s + pad[..|pad| - 1];
      StripPadding(s, pad[..|pad| - 1]);
    }
  }

  function EncodeField(value: Text, len: nat): (b: Bytes)
    ensures |b| == len
  {
    seq(len, i requires 0 <= i < len => if i < len - 1 && i < |value| then value[i] % 256 else 0)
  }

  function DecodeField(b: Bytes): Text {
    Strip(b)
  }

  /** What a field of width `len` can keep of a text: `len - 1` low bytes, trailing blanks dropped. */
  function CanonicalText(value: Text, len: nat): Text
    requires len > 0
  {
    var kept := Min(len - 1, |value|);
    Strip(seq(kept, i requires 0 <= i < kept => value[i] % 256))
  }

  lemma FieldRoundTrip(value: Text, len: nat)
    requires len > 0
    ensures DecodeField(EncodeField(value, len)) == CanonicalText(value, len)
  {
    var kept := Min(len - 1, |value|);
    var low: Text := seq(kept, i requires 0 <= i < kept => value[i] % 256);
    var pad: Text := seq(len - kept, _ => 0);
    assert EncodeField(value, len) == low + pad;
    StripPadding(low, pad);
  }

  ghost predicate FitsField(value: Text, len: nat) {
    && |value| < len
    && (forall i :: 0 <= i < |value| ==> value[i] < 256)
    && (value == [] || !Blank(value[|value| - 1]))
  }

  /** A field keeps a text unchanged exactly when it is short enough, single-byte and ends in no blank. */
  lemma CanonicalTextExact(value: Text, len: nat)
    requires len > 0
    ensures CanonicalText(value, len) == value <==> FitsField(value, len)
  {
    var kept := Min(len - 1, |value|);
    var low: Text := seq(kept, i requires 0 <= i < kept => value[i] % 256);
    StripMeaning(low);
    if CanonicalText(value, len) == value {
      assert |value| <= kept;
      forall i | 0 <= i < |value|
        ensures value[i] < 256
      {
        assert low[i] == value[i];
      }
    }
    if FitsField(value, len) {
      assert low == value;
    }
  }

  // ----- entries -----

  function EntryBytes(e: Entry): (b: Bytes)
    ensures |b| == ENTRY_LEN
  {
    EncodeField(e.from, FROM_LEN) + EncodeField(e.to, TO_LEN)
  }

  function EntriesBytes(entries: seq<Entry>): (b: Bytes)
    ensures |b| == |entries| * ENTRY_LEN
  {
    if entries == [] then []
    else EntriesBytes(entries[..|entries| - 1]) + EntryBytes(entries[|entries| - 1])
  }

  function EntryAt(b: Bytes, i: nat): Entry
    requires HEADER_LEN + (i + 1) * ENTRY_LEN <= |b|
  {
    var offset := HEADER_LEN + i * ENTRY_LEN;
    Entry(DecodeField(b[offset..offset + FROM_LEN]), DecodeField(b[offset + FROM_LEN..offset + ENTRY_LEN]))
  }

  function DecodeEntries(b: Bytes, count: nat): (entries: seq<Entry>)
    requires HEADER_LEN + count * ENTRY_LEN <= |b|
    ensures |entries| == count
  {
    if count == 0 then [] else DecodeEntries(b, count - 1) + [EntryAt(b, count - 1)]
  }

  function CanonicalEntry(e: Entry): Entry {
    Entry(CanonicalText(e.from, FROM_LEN), CanonicalText(e.to, TO_LEN))
  }

  function FirstEntries(table: seq<Entry>): (t: seq<Entry>)
    ensures |t| <= MAX_ENTRIES
  {
    table[..Min(MAX_ENTRIES, |table|)]
  }

  /** The first sixteen entries, each cut to what its fields keep. */
  function CanonicalTable(table: seq<Entry>): seq<Entry> {
    var kept := FirstEntries(table);
    seq(|kept|, i requires 0 <= i < |kept| => CanonicalEntry(kept[i]))
  }

  // ----- the blob -----

  function Header(count: nat): Bytes
    requires count <= MAX_ENTRIES
  {
    [0x4f, 0x53, 1, count]
  }

  function Body(table: seq<Entry>): Bytes {
    Header(|FirstEntries(table)|) + EntriesBytes(FirstEntries(table))
  }

  function Serialize(table: seq<Entry>): Bytes {
    Body(table) + LittleEndian(Crc(Body(table)))
  }

  function Need(count: nat): nat {
    HEADER_LEN + count * ENTRY_LEN + CRC_LEN
  }

  /** The little-endian u16 at the start of the blob. */
  function Magic(low: int, high: int): int {
    low + 256 * high
  }

  function Parse(b: Bytes): Result<seq<Entry>, ParseError> {
    if |b| < HEADER_LEN + CRC_LEN then Err(TooShort)
    else if Magic(b[0], b[1]) != 0x534f then Err(BadMagic)
    else if b[2] != 1 then Err(BadVersion)
    else if b[3] > MAX_ENTRIES then Err(TooManyEntries)
    else
      var need := Need(b[3]);
      if |b| < need then Err(Truncated)
      else if Crc(b[..need - CRC_LEN]) != FromLittleEndian(b[need - CRC_LEN..need]) then Err(CrcMismatch)
      else Ok(DecodeEntries(b, b[3]))
  }

  lemma SerializeShape(table: seq<Entry>)
    ensures var b := Serialize(table); var count := |FirstEntries(table)|;
            && |b| == Need(count)
            && b[..4] == Header(count)
            && b[..|b| - CRC_LEN] == Body(table)
            && b[|b| - CRC_LEN..] == LittleEndian(Crc(Body(table)))
  {
    hide Crc, LittleEndian, EntriesBytes;
  }

  lemma {:induction false} EntriesRoundTrip(entries: seq<Entry>, head: Bytes, rest: Bytes)
    requires |head| == HEADER_LEN
    ensures |head + EntriesBytes(entries) + rest| >= HEADER_LEN + |entries| * ENTRY_LEN
    ensures DecodeEntries(head + EntriesBytes(entries) + rest, |entries|)
            == seq(|entries|, i requires 0 <= i < |entries| => CanonicalEntry(entries[i]))
  {
    hide EntryBytes, CanonicalEntry, EntryAt;
    if entries != [] {
      var front, last := entries[..|entries| - 1], entries[|entries| - 1];
      var b := head + EntriesBytes(entries) + rest;
      assert b == head + EntriesBytes(front) + (EntryBytes(last) + rest);
      EntriesRoundTrip(front, head, EntryBytes(last) + rest);
      EntryReads(head + EntriesBytes(front), last, rest, |front|);
      assert b == head + EntriesBytes(front) + EntryBytes(last) + rest;
    }
  }

  lemma EntryReads(before: Bytes, e: Entry, rest: Bytes, i: nat)
    requires |before| == HEADER_LEN + i * ENTRY_LEN
    ensures EntryAt(before + EntryBytes(e) + rest, i) == CanonicalEntry(e)
  {
    hide EncodeField, DecodeField, CanonicalText;
    var b := before + EntryBytes(e) + rest;
    var offset := |before|;
    assert b[offset..offset + FROM_LEN] == EncodeField(e.from, FROM_LEN);
    assert b[offset + FROM_LEN..offset + ENTRY_LEN] == EncodeField(e.to, TO_LEN);
    FieldRoundTrip(e.from, FROM_LEN);
    FieldRoundTrip(e.to, TO_LEN);
  }

  /** Parsing what was serialized succeeds, for every table, and gives its canonical form. */
  lemma ParseSerialize(table: seq<Entry>)
    ensures Parse(Serialize(table)) == Ok(CanonicalTable(table))
  {
    hide Crc, LittleEndian, EntriesBytes, FromLittleEndian, CanonicalEntry, DecodeEntries;
    SerializeShape(table);
    var b := Serialize(table);
    LittleEndianRoundTrip(Crc(Body(table)));
    EntriesRoundTrip(FirstEntries(table), Header(|FirstEntries(table)|), LittleEndian(Crc(Body(table))));
    assert b[0] == b[..4][0] && b[1] == b[..4][1] && b[2] == b[..4][2] && b[3] == b[..4][3];
    assert b[|b| - CRC_LEN..|b|] == b[|b| - CRC_LEN..];
  }

  ghost predicate Storable(table: seq<Entry>) {
    && |table| <= MAX_ENTRIES
    && forall i :: 0 <= i < |table| ==> FitsField(table[i].from, FROM_LEN) && FitsField(table[i].to, TO_LEN)
  }

  /** A table survives the round trip unchanged exactly when it has at most 16 entries that all fit their fields. */
  lemma RoundTripExact(table: seq<Entry>)
    ensures Parse(Serialize(table)) == Ok(table) <==> Storable(table)
  {
    hide Parse, Serialize, CanonicalText, FitsField;
    ParseSerialize(table);
    var canonical := CanonicalTable(table);
    forall i | 0 <= i < |FirstEntries(table)|
      ensures canonical[i] == table[i] <==> FitsField(table[i].from, FROM_LEN) && FitsField(table[i].to, TO_LEN)
    {
      CanonicalTextExact(table[i].from, FROM_LEN);
      CanonicalTextExact(table[i].to, TO_LEN);
    }
    if Storable(table) {
      assert canonical == table;
    }
  }

  /** An accepted blob is one with a sound header, enough bytes, and residue 0 over exactly the bytes it needs. */
  lemma AcceptsExactly(b: Bytes)
    ensures Parse(b).Ok? <==>
            && |b| >= HEADER_LEN + CRC_LEN && b[..3] == [0x4f, 0x53, 1] && b[3] <= MAX_ENTRIES
            && Need(b[3]) <= |b| && Crc(b[..Need(b[3])]) == ZERO
  {
    hide Crc, FromLittleEndian, DecodeEntries;
    if |b| >= HEADER_LEN + CRC_LEN && Need(b[3]) <= |b| {
      var need := Need(b[3]);
      assert b[..need] == b[..need - CRC_LEN] + b[need - CRC_LEN..need];
      Residue(b[..need - CRC_LEN], b[need - CRC_LEN..need]);
      assert b[..3] == [b[0], b[1], b[2]];
    }
  }

  /** The text's low bytes, cut before the last byte of the field, and zeros behind them. */
  predicate IsField(b: Bytes, value: Text, len: nat) {
    |b| == len && forall j :: 0 <= j < len ==> b[j] == if j < len - 1 && j < |value| then value[j] % 256 else 0
  }

  lemma {:induction false} EntriesBytesAt(entries: seq<Entry>, i: nat)
    requires i < |entries|
    ensures 26 * i + 26 <= |EntriesBytes(entries)|
    ensures EntriesBytes(entries)[26 * i..26 * i + 26] == EntryBytes(entries[i])
  {
    hide EntryBytes;
    if i < |entries| - 1 {
      var front := entries[..|entries| - 1];
      EntriesBytesAt(front, i);
      assert EntriesBytes(entries)[26 * i..26 * i + 26] == EntriesBytes(front)[26 * i..26 * i + 26];
    }
  }

  /**
   Where everything stands in a serialized table: magic, version and count, then for each entry 16
   bytes of what is replaced and 10 of its replacement, zero-filled and never used to the last byte.
   */
  lemma BlobLayout(table: seq<Entry>, i: nat)
    requires i < Min(16, |table|)
    ensures var b, n, at := Serialize(table), Min(16, |table|), 4 + 26 * i;
            && |b| == 8 + 26 * n && b[..4] == [0x4f, 0x53, 1, n]
            && IsField(b[at..at + 16], table[i].from, 16) && IsField(b[at + 16..at + 26], table[i].to, 10)
  {
    hide Crc, LittleEndian, EntriesBytes;
    SerializeShape(table);
    EntriesBytesAt(FirstEntries(table), i);
    assert IsField(EncodeField(table[i].from, FROM_LEN), table[i].from, 16);
    assert IsField(EncodeField(table[i].to, TO_LEN), table[i].to, 10);
    hide IsField, EncodeField;
    var b, at := Serialize(table), 4 + 26 * i;
    assert b[at..at + 26] == EntriesBytes(FirstEntries(table))[26 * i..26 * i + 26];
    assert b[at..at + 16] == EntryBytes(table[i])[..16] == EncodeField(table[i].from, FROM_LEN);
    assert b[at + 16..at + 26] == EntryBytes(table[i])[16..] == EncodeField(table[i].to, TO_LEN);
  }

  /** Why a blob is refused: the first in this order. */
  lemma RefusedExactly(b: Bytes)
    ensures var r, short := Parse(b), |b| < 8;
            var magic := !short && b[..2] == [0x4f, 0x53];
            var version := magic && b[2] == 1;
            var count := version && b[3] <= 16;
            var whole := count && |b| >= 8 + 26 * b[3] as nat;
            && (r == Err(TooShort) <==> short)
            && (r == Err(BadMagic) <==> !short && !magic)
            && (r == Err(BadVersion) <==> magic && !version)
            && (r == Err(TooManyEntries) <==> version && !count)
            && (r == Err(Truncated) <==> count && !whole)
            && (r == Err(CrcMismatch) <==> whole && Crc(b[..8 + 26 * b[3] as nat]) != ZERO)
  {
    hide Crc, FromLittleEndian, DecodeEntries;
    AcceptsExactly(b);
    if |b| >= 8 {
      assert b[..2] == [b[0], b[1]] && b[..3] == [b[0], b[1], b[2]];
    }
  }

  lemma FieldTextFits(b: Bytes, len: nat)
    requires |b| == len
    ensures FitsField(DecodeField(b), len) <==> |DecodeField(b)| < len
  {
    StripMeaning(b);
  }

  /**
   Re-serializing what was parsed is stable exactly when no field of the blob was used to its
   full width: the writer always leaves a terminator, the reader does not insist on one.
   */
  lemma {:induction false} ReserializeExact(b: Bytes)
    requires Parse(b).Ok?
    ensures var t := Parse(b).value;
            Parse(Serialize(t)) == Ok(t)
            <==> forall i :: 0 <= i < |t| ==> |t[i].from| < FROM_LEN && |t[i].to| < TO_LEN
  {
    hide Crc, DecodeField, FitsField, Serialize, FromLittleEndian;
    var t := DecodeEntries(b, b[3]);
    assert Parse(b).value == t;
    forall i | 0 <= i < |t|
      ensures FitsField(t[i].from, FROM_LEN) && FitsField(t[i].to, TO_LEN)
              <==> |t[i].from| < FROM_LEN && |t[i].to| < TO_LEN
    {
      DecodeEntriesAt(b, b[3], i);
      var offset := HEADER_LEN + i * ENTRY_LEN;
      FieldTextFits(b[offset..offset + FROM_LEN], FROM_LEN);
      FieldTextFits(b[offset + FROM_LEN..offset + ENTRY_LEN], TO_LEN);
    }
    RoundTripExact(t);
  }

  lemma {:induction false} DecodeEntriesAt(b: Bytes, count: nat, i: nat)
    requires HEADER_LEN + count * ENTRY_LEN <= |b| && i < count
    ensures DecodeEntries(b, count)[i] == EntryAt(b, i)
  {
    if i < count - 1 {
      DecodeEntriesAt(b, count - 1, i);
    }
  }

  // ----- corruption -----

  lemma {:induction false} MessageBitsAt(b: Bytes, i: nat)
    requires i < 8 * |b|
    ensures MessageBits(b)[i] == ToBits(b[i / 8], 8)[i % 8]
  {
    hide ToBits;
    var front := b[..|b| - 1];
    if i < 8 * |front| {
      MessageBitsAt(front, i);
      assert MessageBits(b)[i] == MessageBits(front)[i];
    } else {
      assert i / 8 == |front| && i % 8 == i - 8 * |front|;
    }
  }

  lemma MessageBitsInjective(x: Bytes, y: Bytes)
    requires |x| == |y| && MessageBits(x) == MessageBits(y)
    ensures x == y
  {
    hide ToBits, MessageBits;
    forall i | 0 <= i < |x|
      ensures x[i] == y[i]
    {
      var u, v := ToBits(x[i], 8), ToBits(y[i], 8);
      forall j | 0 <= j < 8
        ensures u[j] == v[j]
      {
        MessageBitsAt(x, 8 * i + j);
        MessageBitsAt(y, 8 * i + j);
        assert (8 * i + j) / 8 == i && (8 * i + j) % 8 == j;
      }
      assert u == v;
      ByteBitsInjective(x[i], y[i]);
    }
  }

  /**
   Any change confined to 32 consecutive bits of a serialized blob, wherever they lie and
   whether or not they straddle body and stored CRC, is rejected unless it lowers the count byte.
   */
  lemma BurstRejected(table: seq<Entry>, y: Bytes, k: nat)
    requires var x := Serialize(table);
             y != x && AgreeOutside(MessageBits(x), MessageBits(y), k, 32) && y[3] >= x[3]
    ensures Parse(y).Err?
  {
    hide Crc, MessageBits, Serialize, Parse, CrcBits;
    var x := Serialize(table);
    ParseSerialize(table);
    SerializeShape(table);
    AcceptsExactly(x);
    AcceptsExactly(y);
    assert |y| == |x|;
    assert x[3] == x[..4][3] == |FirstEntries(table)|;
    if Parse(y).Ok? {
      assert y[3] == x[3];
      assert y[..|y|] == y && x[..|x|] == x;
      CrcIsBitSerial(x);
      CrcIsBitSerial(y);
      if MessageBits(x) == MessageBits(y) {
        MessageBitsInjective(x, y);
      }
      BurstChangesCrc(ZERO, MessageBits(x), MessageBits(y), k);
      assert false;
    }
  }

  /**
   A changed blob gets through exactly when it keeps the magic and version, lowers the count, and
   a shorter CRC happens to fit.
   */
  lemma BurstAcceptedExactly(table: seq<Entry>, y: Bytes, k: nat)
    requires var x := Serialize(table);
             y != x && AgreeOutside(MessageBits(x), MessageBits(y), k, 32)
    ensures var x := Serialize(table);
            Parse(y).Ok? <==> y[..3] == x[..3] && y[3] < x[3] && Crc(y[..Need(y[3])]) == ZERO
  {
    hide Crc, MessageBits, Serialize, Parse;
    var x := Serialize(table);
    ParseSerialize(table);
    SerializeShape(table);
    AcceptsExactly(x);
    AcceptsExactly(y);
    if y[3] >= x[3] {
      BurstRejected(table, y, k);
    }
  }

  /** The byte-aligned case: at most four consecutive bytes from offset 4 on. */
  lemma FourByteBurstRejected(table: seq<Entry>, y: Bytes, i: nat)
    requires var x := Serialize(table);
             && |y| == |x| && y != x && i >= 4
             && forall j :: 0 <= j < |x| && !(i <= j < i + 4) ==> y[j] == x[j]
    ensures Parse(y).Err?
  {
    hide MessageBits, Serialize, Parse, ToBits;
    var x := Serialize(table);
    SerializeShape(table);
    BytesAgree(x, y, i);
    BurstRejected(table, y, 8 * i);
  }

  lemma BytesAgree(x: Bytes, y: Bytes, i: nat)
    requires |x| == |y| && forall j :: 0 <= j < |x| && !(i <= j < i + 4) ==> y[j] == x[j]
    ensures AgreeOutside(MessageBits(x), MessageBits(y), 8 * i, 32)
  {
    hide MessageBits, ToBits;
    forall k | 0 <= k < 8 * |x| && !(8 * i <= k < 8 * i + 32)
      ensures MessageBits(x)[k] == MessageBits(y)[k]
    {
      MessageBitsAt(x, k);
      MessageBitsAt(y, k);
      assert !(i <= k / 8 < i + 4);
    }
  }

  /** The blob whose only entry begins with the CRC of an empty table's header. */
  function Deceptive(): seq<Entry> {
    [Entry(LittleEndian(Crc(Header(0))), [])]
  }

  /** Lowering the count byte is the one change a single-byte error can get away with. */
  lemma LowerCountAccepted()
    ensures var x := Serialize(Deceptive());
            x[3] == 1 && Parse(x[3 := 0]) == Ok([])
  {
    hide Crc, LittleEndian, FromLittleEndian, EncodeField;
    var t := Deceptive();
    var x := Serialize(t);
    SerializeShape(t);
    assert FirstEntries(t) == t;
    assert x[3] == x[..4][3] == 1;
    var y := x[3 := 0];
    assert y[..4] == Header(0) by {
      assert x[..4] == Header(1);
    }
    var word := LittleEndian(Crc(Header(0)));
    assert EntriesBytes(t) == EntryBytes(t[0]) by {
      assert t[..0] == [];
    }
    assert x[4..4 + FROM_LEN] == EncodeField(word, FROM_LEN);
    assert y[4..8] == x[4..4 + FROM_LEN][..4];
    FieldStart(word, FROM_LEN);
    assert y[4..8] == word;
    LittleEndianRoundTrip(Crc(Header(0)));
    assert y[0] == y[..4][0] && y[1] == y[..4][1] && y[2] == y[..4][2];
  }

  lemma FieldStart(b: Bytes, len: nat)
    requires |b| < len
    ensures EncodeField(b, len)[..|b|] == b
  {
  }

  // ----- the code -----

  /** `decodeFixedString`. */
  method DecodeFixedString(bytes: Bytes) returns (text: Text)
    ensures text == DecodeField(bytes)
  {
    var end := |bytes|;
    assert bytes[..end] == bytes;
    while end > 0 && (bytes[end - 1] == 0 || bytes[end - 1] == 0x20)
      invariant 0 <= end <= |bytes|
      invariant Strip(bytes[..end]) == Strip(bytes)
    {
      assert bytes[..end][..end - 1] == bytes[..end - 1];
      end := end - 1;
    }
    text := [];
    var i := 0;
    while i < end
      invariant 0 <= i <= end
      invariant text == bytes[..i]
    {
      text := text + [bytes[i]];
      i := i + 1;
    }
  }

  /** `encodeFixedString`: a zero-filled field and at most `len - 1` low bytes. */
  method EncodeFixedString(value: Text, len: nat) returns (out: array<byte>)
    ensures fresh(out) && out[..] == EncodeField(value, len)
  {
    out := new byte[len](_ => 0);
    var i := 0;
    while i < len - 1 && i < |value|
      invariant 0 <= i <= |value| && (i == 0 || i < len)
      invariant forall j :: 0 <= j < len ==> out[j] == if j < i then value[j] % 256 else 0
    {
      out[i] := value[i] % 256;
      i := i + 1;
    }
    assert out[..] == EncodeField(value, len);
  }

  /** `parseOsdShorthand`. */
  method ParseOsdShorthand(table: array<Word>, bytes: Bytes) returns (r: Result<seq<Entry>, ParseError>)
    requires table.Length == 256
    requires forall n :: 0 <= n < 256 ==> table[n] == TableEntry(n)
    ensures r == Parse(bytes)
  {
    hide TableEntry, CrcBits, Crc, FromLittleEndian, DecodeField;
    if |bytes| < HEADER_LEN + CRC_LEN {
      return Err(TooShort);
    }
    if Magic(bytes[0], bytes[1]) != 0x534f {
      return Err(BadMagic);
    }
    if bytes[2] != 1 {
      return Err(BadVersion);
    }
    var count := bytes[3];
    if count > MAX_ENTRIES {
      return Err(TooManyEntries);
    }
    var need := HEADER_LEN + count * ENTRY_LEN + CRC_LEN;
    if |bytes| < need {
      return Err(Truncated);
    }
    var crc := Crc32(table, bytes[..need - CRC_LEN]);
    if crc != FromLittleEndian(bytes[need - CRC_LEN..need]) {
      return Err(CrcMismatch);
    }
    var entries: seq<Entry> := [];
    var offset := HEADER_LEN;
    var i := 0;
    while i < count
      invariant 0 <= i <= count
      invariant offset == HEADER_LEN + i * ENTRY_LEN
      invariant entries == DecodeEntries(bytes, i)
    {
      var from := DecodeFixedString(bytes[offset..offset + FROM_LEN]);
      offset := offset + FROM_LEN;
      var to := DecodeFixedString(bytes[offset..offset + TO_LEN]);
      offset := offset + TO_LEN;
      entries := entries + [Entry(from, to)];
      i := i + 1;
    }
    r := Ok(entries);
  }

  /** `serializeOsdShorthand`. */
  method SerializeOsdShorthand(crcTable: array<Word>, table: seq<Entry>) returns (blob: Bytes)
    requires crcTable.Length == 256
    requires forall n :: 0 <= n < 256 ==> crcTable[n] == TableEntry(n)
    ensures blob == Serialize(table)
    ensures Parse(blob) == Ok(CanonicalTable(table))
  {
    hide TableEntry, CrcBits, Crc, LittleEndian, EncodeField, Parse, CanonicalTable;
    var entries := FirstEntries(table);
    var body: Bytes := Header(|entries|);
    var i := 0;
    while i < |entries|
      invariant 0 <= i <= |entries|
      invariant body == Header(|entries|) + EntriesBytes(entries[..i])
    {
      var from := EncodeFixedString(entries[i].from, FROM_LEN);
      var to := EncodeFixedString(entries[i].to, TO_LEN);
      assert entries[..i + 1][..i] == entries[..i];
      body := body + (from[..] + to[..]);
      i := i + 1;
    }
    assert entries[..i] == entries;
    var crc := Crc32(crcTable, body);
    blob := body + LittleEndian(crc);
    ParseSerialize(table);
  }
}
