/**
 The CRC-32 of the OSD shorthand blob: reflected, polynomial 0xEDB88320, initial value 0 and
 no final exclusive or.

 A 32-bit word is the sequence of its bits, least significant first, so that `>>> 1` drops the
 first bit and `^` works bit by bit. The reference is the bit-serial form `CrcBits`, which shifts
 one message bit at a time into the register. The table-driven loop of the source is proved
 equal to it, and every property of the code is proved on bits.
 */
module OsdCrc {
  import opened Octets

  type Bits = seq<bool>

  /** The `k` low bits of a number. */
  function ToBits(n: nat, k: nat): (s: Bits)
    ensures |s| == k
  {
    if k == 0 then [] else [n % 2 == 1] + ToBits(n / 2, k - 1)
  }

  function Zeros(n: nat): (z: Bits)
    ensures |z| == n
    ensures forall i :: 0 <= i < n ==> !z[i]
  {
    seq(n, _ => false)
  }

  type Word = w: Bits | |w| == 32 witness Zeros(32)

  const POLYNOMIAL: Word := ToBits(0xedb88320, 32)

  const ZERO: Word := Zeros(32)

  /** The exponents of the generator polynomial of IEEE 802.3, without the leading 32. */
  const EXPONENTS: set<nat> := {0, 1, 2, 4, 5, 7, 8, 10, 11, 12, 16, 22, 23, 26}

  lemma OneBit(bit: nat, half: nat, k: nat)
    requires bit < 2 && 1 <= k
    ensures ToBits(2 * half + bit, k) == [bit == 1] + ToBits(half, k - 1)
  {
  }

  /** Four bits of a number, the lowest first. */
  lemma Nibble(b0: nat, b1: nat, b2: nat, b3: nat, high: nat, k: nat)
    requires b0 < 2 && b1 < 2 && b2 < 2 && b3 < 2 && 4 <= k
    ensures ToBits(16 * high + 8 * b3 + 4 * b2 + 2 * b1 + b0, k)
            == [b0 == 1, b1 == 1, b2 == 1, b3 == 1] + ToBits(high, k - 4)
  {
    hide ToBits;
    OneBit(b0, 8 * high + 4 * b3 + 2 * b2 + b1, k);
    OneBit(b1, 4 * high + 2 * b3 + b2, k - 1);
    OneBit(b2, 2 * high + b3, k - 2);
    OneBit(b3, high, k - 3);
  }

  /** The constant is that polynomial, the highest power in the lowest bit. */
  lemma StandardPolynomial(k: nat)
    requires k < 32
    ensures POLYNOMIAL[31 - k] <==> k in EXPONENTS
  {
    hide ToBits;
    Nibble(0, 0, 0, 0, 0xedb8832, 32);
    Nibble(0, 1, 0, 0, 0xedb883, 28);
    Nibble(1, 1, 0, 0, 0xedb88, 24);
    Nibble(0, 0, 0, 1, 0xedb8, 20);
    Nibble(0, 0, 0, 1, 0xedb, 16);
    Nibble(1, 1, 0, 1, 0xed, 12);
    Nibble(1, 0, 1, 1, 0xe, 8);
    Nibble(0, 1, 1, 1, 0x0, 4);
  }

  function Xor32(a: Word, b: Word): (x: Word)
    ensures forall i :: 0 <= i < 32 ==> x[i] == (a[i] != b[i])
  {
    seq(32, i requires 0 <= i < 32 => a[i] != b[i])
  }

  function Shr(a: Word): (x: Word)
    ensures forall i :: 0 <= i < 31 ==> x[i] == a[i + 1]
    ensures !x[31]
  {
    a[1..] + [false]
  }

  function Shr8(a: Word): (x: Word) {
    a[8..] + Zeros(8)
  }

  /** A short bit string as a word. */
  function Extend(s: Bits): (x: Word)
    requires |s| <= 32
    ensures forall i :: 0 <= i < 32 ==> x[i] == if i < |s| then s[i] else false
  {
    s + Zeros(32 - |s|)
  }

  function BitStep(c: Word): Word {
    if c[0] then Xor32(POLYNOMIAL, Shr(c)) else Shr(c)
  }

  function BitSteps(c: Word, k: nat): Word
    decreases k
  {
    if k == 0 then c else BitSteps(BitStep(c), k - 1)
  }

  /** The register after shifting in `bits`, first bit of the message first. */
  function CrcBits(c: Word, bits: Bits): Word
    decreases |bits|
  {
    if bits == [] then c else CrcBits(BitStep(Xor32(c, Extend([bits[0]]))), bits[1..])
  }

  // ----- exclusive or -----

  lemma XorSelf(a: Word)
    ensures Xor32(a, a) == ZERO
  {
  }

  lemma XorZero(a: Word)
    ensures Xor32(a, ZERO) == a && Xor32(ZERO, a) == a
  {
  }

  lemma XorCommutes(a: Word, b: Word)
    ensures Xor32(a, b) == Xor32(b, a)
  {
  }

  lemma XorAssociates(a: Word, b: Word, c: Word)
    ensures Xor32(Xor32(a, b), c) == Xor32(a, Xor32(b, c))
  {
  }

  lemma XorCancels(a: Word, b: Word, x: Word)
    requires Xor32(a, x) == Xor32(b, x)
    ensures a == b
  {
    hide Xor32;
    XorAssociates(a, x, x);
    XorAssociates(b, x, x);
    XorSelf(x);
    XorZero(a);
    XorZero(b);
  }

  // ----- one bit -----

  lemma ShrLinear(a: Word, b: Word)
    ensures Shr(Xor32(a, b)) == Xor32(Shr(a), Shr(b))
  {
    hide Xor32, Shr;
    var l, r := Shr(Xor32(a, b)), Xor32(Shr(a), Shr(b));
    assert forall i :: 0 <= i < 32 ==> l[i] == r[i];
  }

  lemma BitStepLinear(a: Word, b: Word)
    ensures BitStep(Xor32(a, b)) == Xor32(BitStep(a), BitStep(b))
  {
    hide Shr;
    ShrLinear(a, b);
    var l, r := BitStep(Xor32(a, b)), Xor32(BitStep(a), BitStep(b));
    assert forall i :: 0 <= i < 32 ==> l[i] == r[i];
  }

  lemma {:induction false} TopBit(n: nat, k: nat)
    requires k > 0 && Pow2(k - 1) <= n < Pow2(k)
    ensures ToBits(n, k)[k - 1]
  {
    if k > 1 {
      TopBit(n / 2, k - 1);
    }
  }

  /** The polynomial has its top bit set, which is what makes every step reversible. */
  lemma PolynomialTop()
    ensures POLYNOMIAL[31]
  {
    assert Pow2(8) == 0x100 by { assert Pow2(4) == 16; }
    assert Pow2(16) == 0x1_0000 by { assert Pow2(12) == 0x1000; }
    assert Pow2(24) == 0x100_0000 by { assert Pow2(20) == 0x10_0000; }
    assert Pow2(31) == 0x8000_0000 by { assert Pow2(28) == 0x1000_0000; }
    TopBit(0xedb88320, 32);
  }

  lemma BitStepInjective(a: Word, b: Word)
    requires BitStep(a) == BitStep(b)
    ensures a == b
  {
    hide ToBits;
    PolynomialTop();
    var x, y := BitStep(a), BitStep(b);
    assert x[31] == a[0] && y[31] == b[0];
    assert forall i :: 0 <= i < 31 ==> x[i] == (if a[0] then POLYNOMIAL[i] != a[i + 1] else a[i + 1]);
    assert forall i :: 0 <= i < 31 ==> y[i] == (if b[0] then POLYNOMIAL[i] != b[i + 1] else b[i + 1]);
    forall i | 0 <= i < 32
      ensures a[i] == b[i]
    {
      if i > 0 {
        assert x[i - 1] == y[i - 1];
      }
    }
  }

  lemma {:induction false} BitStepsLinear(a: Word, b: Word, k: nat)
    ensures BitSteps(Xor32(a, b), k) == Xor32(BitSteps(a, k), BitSteps(b, k))
    decreases k
  {
    hide BitStep, Xor32;
    if k > 0 {
      BitStepLinear(a, b);
      BitStepsLinear(BitStep(a), BitStep(b), k - 1);
    }
  }

  lemma {:induction false} BitStepsInjective(a: Word, b: Word, k: nat)
    requires BitSteps(a, k) == BitSteps(b, k)
    ensures a == b
    decreases k
  {
    hide BitStep;
    if k > 0 {
      BitStepsInjective(BitStep(a), BitStep(b), k - 1);
      BitStepInjective(a, b);
    }
  }

  lemma {:induction false} BitStepsZero(k: nat)
    ensures BitSteps(ZERO, k) == ZERO
  {
    if k > 0 {
      assert BitStep(ZERO) == ZERO;
      BitStepsZero(k - 1);
    }
  }

  lemma {:induction false} BitStepsAdd(c: Word, j: nat, k: nat)
    ensures BitSteps(c, j + k) == BitSteps(BitSteps(c, j), k)
    decreases j
  {
    hide BitStep;
    if j > 0 {
      BitStepsAdd(BitStep(c), j - 1, k);
    }
  }

  // ----- bit sequences -----

  lemma {:induction false} CrcBitsSplit(c: Word, a: Bits, b: Bits)
    ensures CrcBits(c, a + b) == CrcBits(CrcBits(c, a), b)
    decreases |a|
  {
    hide BitStep, Xor32, Extend;
    if a == [] {
      assert a + b == b;
    } else {
      assert (a + b)[1..] == a[1..] + b;
      CrcBitsSplit(BitStep(Xor32(c, Extend([a[0]]))), a[1..], b);
    }
  }

  /** The register is never forgotten: equal inputs keep different registers different. */
  lemma {:induction false} CrcBitsInjective(c: Word, d: Word, bits: Bits)
    requires CrcBits(c, bits) == CrcBits(d, bits)
    ensures c == d
    decreases |bits|
  {
    hide BitStep, Xor32, Extend;
    if bits != [] {
      var x := Extend([bits[0]]);
      CrcBitsInjective(BitStep(Xor32(c, x)), BitStep(Xor32(d, x)), bits[1..]);
      BitStepInjective(Xor32(c, x), Xor32(d, x));
      XorCancels(c, d, x);
    }
  }

  lemma ExtendSplits(bits: Bits)
    requires 0 < |bits| <= 32
    ensures Extend(bits) == Xor32(Extend([bits[0]]), Extend([false] + bits[1..]))
    ensures BitStep(Extend([false] + bits[1..])) == Extend(bits[1..])
  {
    hide Extend, Xor32;
    var l, r := Extend(bits), Xor32(Extend([bits[0]]), Extend([false] + bits[1..]));
    assert forall i :: 0 <= i < 32 ==> l[i] == r[i];
    var s, t := BitStep(Extend([false] + bits[1..])), Extend(bits[1..]);
    assert forall i :: 0 <= i < 32 ==> s[i] == t[i];
  }

  /** Shifting in at most 32 bits one at a time is combining them with the register all at once. */
  lemma {:induction false} CrcBitsPacked(c: Word, bits: Bits)
    requires |bits| <= 32
    ensures CrcBits(c, bits) == BitSteps(Xor32(c, Extend(bits)), |bits|)
    decreases |bits|
  {
    hide BitStep, Xor32, Extend;
    if bits == [] {
      assert Extend(bits) == ZERO;
      XorZero(c);
    } else {
      var first, later := Extend([bits[0]]), Extend([false] + bits[1..]);
      ExtendSplits(bits);
      XorAssociates(c, first, later);
      BitStepLinear(Xor32(c, first), later);
      CrcBitsPacked(BitStep(Xor32(c, first)), bits[1..]);
    }
  }

  lemma ExtendInjective(u: Bits, v: Bits)
    requires |u| == |v| <= 32 && Extend(u) == Extend(v)
    ensures u == v
  {
    hide Extend;
    forall i | 0 <= i < |u|
      ensures u[i] == v[i]
    {
      assert Extend(u)[i] == Extend(v)[i];
    }
  }

  /** From one register value, different windows of at most 32 bits give different registers. */
  lemma WindowInjective(c: Word, u: Bits, v: Bits)
    requires |u| == |v| <= 32 && CrcBits(c, u) == CrcBits(c, v)
    ensures u == v
  {
    hide BitSteps, Xor32, Extend, CrcBits;
    CrcBitsPacked(c, u);
    CrcBitsPacked(c, v);
    BitStepsInjective(Xor32(c, Extend(u)), Xor32(c, Extend(v)), |u|);
    XorCommutes(c, Extend(u));
    XorCommutes(c, Extend(v));
    XorCancels(Extend(u), Extend(v), c);
    ExtendInjective(u, v);
  }

  /** Do `x` and `y` agree outside the `width` bits from `k` on? */
  ghost predicate AgreeOutside(x: Bits, y: Bits, k: nat, width: nat) {
    && |x| == |y|
    && forall i :: 0 <= i < |x| && !(k <= i < k + width) ==> x[i] == y[i]
  }

  /** Two messages that differ only within 32 consecutive bits never share a CRC. */
  lemma BurstChangesCrc(c: Word, x: Bits, y: Bits, k: nat)
    requires AgreeOutside(x, y, k, 32) && x != y
    ensures CrcBits(c, x) != CrcBits(c, y)
  {
    hide CrcBits;
    if CrcBits(c, x) == CrcBits(c, y) {
      var i := if k <= |x| then k else |x|;
      var j := if k + 32 <= |x| then k + 32 else |x|;
      assert x == x[..i] + (x[i..j] + x[j..]) && y == y[..i] + (y[i..j] + y[j..]);
      assert x[..i] == y[..i] && x[j..] == y[j..];
      CrcBitsSplit(c, x[..i], x[i..j] + x[j..]);
      CrcBitsSplit(c, y[..i], y[i..j] + y[j..]);
      var d := CrcBits(c, x[..i]);
      CrcBitsSplit(d, x[i..j], x[j..]);
      CrcBitsSplit(d, y[i..j], y[j..]);
      CrcBitsInjective(CrcBits(d, x[i..j]), CrcBits(d, y[i..j]), x[j..]);
      WindowInjective(d, x[i..j], y[i..j]);
      assert false;
    }
  }

  // ----- numbers and bits -----

  function FromBits(s: Bits): nat {
    if s == [] then 0 else (if s[0] then 1 else 0) + 2 * FromBits(s[1..])
  }

  lemma {:induction false} FromBitsBounded(s: Bits)
    ensures FromBits(s) < Pow2(|s|)
  {
    if s != [] {
      FromBitsBounded(s[1..]);
    }
  }

  lemma {:induction false} BitsRoundTrip(n: nat, k: nat)
    requires n < Pow2(k)
    ensures FromBits(ToBits(n, k)) == n
  {
    if k > 0 {
      BitsRoundTrip(n / 2, k - 1);
      assert ToBits(n, k)[1..] == ToBits(n / 2, k - 1);
    }
  }

  lemma {:induction false} BitsUnique(s: Bits)
    ensures ToBits(FromBits(s), |s|) == s
  {
    if s != [] {
      BitsUnique(s[1..]);
      assert s == [s[0]] + s[1..];
    }
  }

  /** A byte from its eight bits. */
  function ByteOf(s: Bits): (b: byte)
    requires |s| == 8
    ensures ToBits(b, 8) == s
  {
    FromBitsBounded(s);
    BitsUnique(s);
    assert Pow2(8) == 256 by { assert Pow2(4) == 16; }
    FromBits(s)
  }

  lemma ByteBitsInjective(a: byte, b: byte)
    requires ToBits(a, 8) == ToBits(b, 8)
    ensures a == b
  {
    assert Pow2(8) == 256 by { assert Pow2(4) == 16; }
    BitsRoundTrip(a, 8);
    BitsRoundTrip(b, 8);
  }

  /** The bits of a message, bytes in order, lowest bit of each byte first. */
  function MessageBits(bytes: Bytes): (s: Bits)
    ensures |s| == 8 * |bytes|
  {
    if bytes == [] then [] else MessageBits(bytes[..|bytes| - 1]) + ToBits(bytes[|bytes| - 1], 8)
  }

  // ----- the table -----

  /** Eight bit steps only move bits above the low byte down. */
  lemma HighPart(h: Word)
    requires forall i :: 0 <= i < 8 ==> !h[i]
    ensures BitSteps(h, 8) == Shr8(h)
  {
    hide Xor32;
    ShiftDown(h, 8);
  }

  lemma {:induction false} ShiftDown(h: Word, k: nat)
    requires k <= 32 && forall i :: 0 <= i < k ==> !h[i]
    ensures BitSteps(h, k) == h[k..] + Zeros(k)
    decreases k
  {
    hide Xor32;
    if k > 0 {
      var g := BitStep(h);
      assert g == Shr(h);
      ShiftDown(g, k - 1);
      assert g[k - 1..] + Zeros(k - 1) == h[k..] + Zeros(k);
    } else {
      assert h[0..] + Zeros(0) == h;
    }
  }

  function TableEntry(n: byte): Word {
    BitSteps(Extend(ToBits(n, 8)), 8)
  }

  /** One round of the source's loop: the table at the low byte of register and message byte, then `>>> 8`. */
  function ByteStep(c: Word, b: byte): Word {
    Xor32(TableEntry(ByteOf(Xor32(c, Extend(ToBits(b, 8)))[..8])), Shr8(c))
  }

  function Crc(bytes: Bytes): Word {
    if bytes == [] then ZERO else ByteStep(Crc(bytes[..|bytes| - 1]), bytes[|bytes| - 1])
  }

  lemma SplitLowByte(x: Word)
    ensures x == Xor32(Extend(x[..8]), Zeros(8) + x[8..])
  {
    hide Xor32, Extend;
    var l, r := x, Xor32(Extend(x[..8]), Zeros(8) + x[8..]);
    assert forall i :: 0 <= i < 32 ==> l[i] == r[i];
  }

  lemma ByteLeavesHigh(c: Word, s: Bits)
    requires |s| == 8
    ensures Xor32(c, Extend(s))[8..] == c[8..]
  {
    hide Xor32, Extend;
    var l, r := Xor32(c, Extend(s)), c;
    assert forall i :: 8 <= i < 32 ==> l[i] == r[i];
  }

  /** A table round is eight bit-serial rounds. */
  lemma ByteStepIsBitSerial(c: Word, b: byte)
    ensures ByteStep(c, b) == BitSteps(Xor32(c, Extend(ToBits(b, 8))), 8)
    ensures ByteStep(c, b) == CrcBits(c, ToBits(b, 8))
  {
    hide BitSteps, CrcBits, Xor32, Extend, ToBits, ByteOf;
    var x := Xor32(c, Extend(ToBits(b, 8)));
    var high: Word := Zeros(8) + x[8..];
    SplitLowByte(x);
    BitStepsLinear(Extend(x[..8]), high, 8);
    HighPart(high);
    ByteLeavesHigh(c, ToBits(b, 8));
    assert Shr8(high) == Shr8(c);
    CrcBitsPacked(c, ToBits(b, 8));
  }

  /** The byte round is injective in the register: no two registers are ever merged. */
  lemma ByteStepInjective(c: Word, d: Word, b: byte)
    requires ByteStep(c, b) == ByteStep(d, b)
    ensures c == d
  {
    hide ByteStep, CrcBits;
    ByteStepIsBitSerial(c, b);
    ByteStepIsBitSerial(d, b);
    CrcBitsInjective(c, d, ToBits(b, 8));
  }

  /** The table-driven CRC of the source is the bit-serial CRC of the message bits. */
  lemma {:induction false} CrcIsBitSerial(bytes: Bytes)
    ensures Crc(bytes) == CrcBits(ZERO, MessageBits(bytes))
  {
    hide ByteStep, ToBits, BitStep;
    if bytes != [] {
      var front := bytes[..|bytes| - 1];
      CrcIsBitSerial(front);
      ByteStepIsBitSerial(Crc(front), bytes[|bytes| - 1]);
      CrcBitsSplit(ZERO, MessageBits(front), ToBits(bytes[|bytes| - 1], 8));
    }
  }

  // ----- the stored CRC -----

  function LittleEndian(d: Word): (s: Bytes)
    ensures |s| == 4
  {
    [ByteOf(d[..8]), ByteOf(d[8..16]), ByteOf(d[16..24]), ByteOf(d[24..])]
  }

  function FromLittleEndian(s: Bytes): Word
    requires |s| == 4
  {
    ToBits(s[0], 8) + ToBits(s[1], 8) + ToBits(s[2], 8) + ToBits(s[3], 8)
  }

  lemma LittleEndianRoundTrip(d: Word)
    ensures FromLittleEndian(LittleEndian(d)) == d
  {
    hide ByteOf, ToBits;
    assert d == d[..8] + d[8..16] + d[16..24] + d[24..];
  }

  lemma {:induction false} MessageAppend(a: Bytes, b: Bytes)
    ensures MessageBits(a + b) == MessageBits(a) + MessageBits(b)
  {
    hide ToBits;
    if b == [] {
      assert a + b == a;
    } else {
      var front, last := b[..|b| - 1], b[|b| - 1];
      assert (a + b)[..|a + b| - 1] == a + front;
      MessageAppend(a, front);
      ConcatAssociates(MessageBits(a), MessageBits(front), ToBits(last, 8));
    }
  }

  lemma ConcatAssociates(a: Bits, b: Bits, c: Bits)
    ensures (a + b) + c == a + (b + c)
  {
  }

  lemma MessagePrefix(bytes: Bytes, k: nat)
    requires k < |bytes|
    ensures MessageBits(bytes[..k + 1]) == MessageBits(bytes[..k]) + ToBits(bytes[k], 8)
  {
    assert bytes[..k + 1][..k] == bytes[..k];
  }

  lemma MessageWord(word: Bytes)
    requires |word| == 4
    ensures MessageBits(word) == FromLittleEndian(word)
  {
    hide ToBits;
    MessagePrefix(word, 0);
    MessagePrefix(word, 1);
    MessagePrefix(word, 2);
    MessagePrefix(word, 3);
    assert word[..4] == word && word[..0] == [];
  }

  /** A body followed by a stored word has residue 0 exactly when the word is the CRC of the body. */
  lemma Residue(body: Bytes, word: Bytes)
    requires |word| == 4
    ensures Crc(body + word) == ZERO <==> FromLittleEndian(word) == Crc(body)
  {
    hide Crc, BitSteps, CrcBits, Xor32, Extend, FromLittleEndian;
    var c, d := Crc(body), FromLittleEndian(word);
    CrcIsBitSerial(body);
    CrcIsBitSerial(body + word);
    MessageAppend(body, word);
    MessageWord(word);
    CrcBitsSplit(ZERO, MessageBits(body), d);
    CrcBitsPacked(c, d);
    assert Extend(d) == d;
    BitStepsZero(32);
    XorSelf(d);
    if Crc(body + word) == ZERO {
      BitStepsInjective(Xor32(c, d), ZERO, 32);
      XorCancels(c, d, d);
    }
  }

  // ----- the code -----

  lemma StepsUnfold(c: Word, k: nat)
    ensures BitSteps(c, k) == if k == 0 then c else BitSteps(BitStep(c), k - 1)
  {
  }

  /** The inner loop of the table construction. */
  method BuildEntry(n: byte) returns (c: Word)
    ensures c == TableEntry(n)
  {
    hide Extend, Xor32, Shr, ToBits, BitSteps;
    c := Extend(ToBits(n, 8));
    var k := 0;
    while k < 8
      invariant 0 <= k <= 8
      invariant BitSteps(c, 8 - k) == TableEntry(n)
    {
      StepsUnfold(c, 8 - k);
      c := if c[0] then Xor32(POLYNOMIAL, Shr(c)) else Shr(c);
      k := k + 1;
    }
    StepsUnfold(c, 0);
  }

  /** The table the source builds at load time. */
  method BuildTable() returns (table: array<Word>)
    ensures fresh(table) && table.Length == 256
    ensures forall n :: 0 <= n < 256 ==> table[n] == TableEntry(n)
  {
    hide TableEntry;
    table := new Word[256];
    var n := 0;
    while n < 256
      invariant 0 <= n <= 256
      invariant forall m :: 0 <= m < n ==> table[m] == TableEntry(m)
    {
      table[n] := BuildEntry(n);
      n := n + 1;
    }
  }

  /** `osdShorthandCrc32`. */
  method Crc32(table: array<Word>, bytes: Bytes) returns (crc: Word)
    requires table.Length == 256
    requires forall n :: 0 <= n < 256 ==> table[n] == TableEntry(n)
    ensures crc == Crc(bytes)
    ensures crc == CrcBits(ZERO, MessageBits(bytes))
  {
    hide TableEntry, Extend, Xor32, ToBits, Shr8, ByteOf;
    crc := ZERO;
    var i := 0;
    while i < |bytes|
      invariant 0 <= i <= |bytes|
      invariant crc == Crc(bytes[..i])
    {
      assert bytes[..i + 1][..i] == bytes[..i];
      var index := ByteOf(Xor32(crc, Extend(ToBits(bytes[i], 8)))[..8]);
      crc := Xor32(table[index], Shr8(crc));
      i := i + 1;
    }
    assert bytes[..i] == bytes;
    CrcIsBitSerial(bytes);
  }
}
