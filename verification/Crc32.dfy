/** The CRC-32 of SaveContainer: the bit-at-a-time loop, the table form of section 8 of RFC 1952, and which corruptions
    it always detects. The word operations are named so that proofs about byte strings need not look inside them. */
module Crc32 {
  import opened Bytes

  type Word = bv32

  const INIT: Word := 0xFFFF_FFFF

  function Xor(x: Word, y: Word): Word { x ^ y }

  function Not(x: Word): Word { !x }

  function Widen(b: byte): Word { b as Word }

  /** One iteration of the inner loop. */
  function BitStep(c: Word): Word {
    (c >> 1) ^ (0xEDB8_8320 & !((c & 1) - 1))
  }

  function Steps(c: Word, k: nat): Word {
    if k == 0 then c else BitStep(Steps(c, k - 1))
  }

  function ByteStep(c: Word): Word {
    BitStep(BitStep(BitStep(BitStep(BitStep(BitStep(BitStep(BitStep(c))))))))
  }

  /** The register after the bytes of `data`, starting from c. */
  function Feed(c: Word, data: seq<byte>): Word {
    if data == [] then c else ByteStep(Xor(Feed(c, data[..|data| - 1]), Widen(data[|data| - 1])))
  }

  function Crc(data: seq<byte>): Word {
    Not(Feed(INIT, data))
  }

  method ComputeCrc(data: seq<byte>) returns (r: Word)
    ensures r == Crc(data)
  {
    hide BitStep, Xor, Not, Widen, ByteStep, Steps;
    var crc: Word := 0xFFFF_FFFF;
    for i := 0 to |data|
      invariant crc == Feed(INIT, data[..i])
    {
      assert data[..i + 1][..i] == data[..i];
      crc := Xor(crc, Widen(data[i]));
      crc := EightBits(crc);
    }
    assert data[..|data|] == data;
    r := Not(crc);
  }

  /** The inner loop. */
  method EightBits(c: Word) returns (r: Word)
    ensures r == ByteStep(c)
  {
    hide BitStep, ByteStep;
    r := c;
    for k := 0 to 8
      invariant r == Steps(c, k)
    {
      r := BitStep(r);
    }
    EightSteps(c);
  }

  lemma EightSteps(c: Word)
    ensures Steps(c, 8) == ByteStep(c)
  {
    hide BitStep;
    assert Steps(c, 1) == BitStep(c);
    assert Steps(c, 2) == BitStep(Steps(c, 1));
    assert Steps(c, 3) == BitStep(Steps(c, 2));
    assert Steps(c, 4) == BitStep(Steps(c, 3));
    assert Steps(c, 5) == BitStep(Steps(c, 4));
    assert Steps(c, 6) == BitStep(Steps(c, 5));
    assert Steps(c, 7) == BitStep(Steps(c, 6));
  }

  // ---- the table form ----

  /** make_crc_table's inner loop for entry n. */
  function TableStep(d: Word): Word {
    if d & 1 == 1 then 0xEDB8_8320 ^ (d >> 1) else d >> 1
  }

  function TableSteps(c: Word, k: nat): Word {
    if k == 0 then c else TableStep(TableSteps(c, k - 1))
  }

  function LowByte(x: Word): Word { x & 0xFF }

  function Shift8(x: Word): Word { x >> 8 }

  /** update_crc over a buffer. */
  function RfcUpdate(c: Word, data: seq<byte>): Word {
    if data == [] then c
    else
      var d := RfcUpdate(c, data[..|data| - 1]);
      Xor(TableSteps(LowByte(Xor(d, Widen(data[|data| - 1]))), 8), Shift8(d))
  }

  function RfcCrc(data: seq<byte>): Word {
    Xor(RfcUpdate(Xor(0, INIT), data), INIT)
  }

  lemma BranchFree(d: Word)
    ensures BitStep(d) == TableStep(d)
  {
    MaskSelects(d);
  }

  lemma MaskSelects(d: Word)
    ensures (d >> 1) ^ (0xEDB8_8320 & !((d & 1) - 1)) == if d & 1 == 1 then 0xEDB8_8320 ^ (d >> 1) else d >> 1
  {
    LowBit(d);
    if d & 1 == 1 {
      MaskOfOne(d & 1, d >> 1);
    } else {
      MaskOfZero(d & 1, d >> 1);
    }
  }

  lemma LowBit(d: Word)
    ensures d & 1 == 0 || d & 1 == 1
  {
  }

  lemma MaskOfOne(low: Word, high: Word)
    requires low == 1
    ensures high ^ (0xEDB8_8320 & !(low - 1)) == 0xEDB8_8320 ^ high
  {
  }

  lemma MaskOfZero(low: Word, high: Word)
    requires low == 0
    ensures high ^ (0xEDB8_8320 & !(low - 1)) == high
  {
  }

  lemma {:induction false} TableIsSteps(c: Word, k: nat)
    ensures TableSteps(c, k) == Steps(c, k)
  {
    hide BitStep, TableStep;
    if k > 0 {
      TableIsSteps(c, k - 1);
      BranchFree(Steps(c, k - 1));
    }
  }

  function Double(b: Word): Word { b << 1 }

  predicate HasRoom(b: Word) { b < 0x8000_0000 }

  /** A bit that enters one step later is the same as that bit one position higher now. */
  lemma LaterBit(x: Word, b: Word)
    requires HasRoom(b)
    ensures Xor(BitStep(x), b) == BitStep(Xor(x, Double(b)))
  {
    hide BitStep;
    LaterBitPlain(x, b);
  }

  lemma LaterBitPlain(x: Word, b: Word)
    requires b < 0x8000_0000
    ensures BitStep(x) ^ b == BitStep(x ^ (b << 1))
  {
    LaterBitOnWords(x, b);
  }

  /** The same with the step written out, so that only word operators are left. */
  lemma LaterBitOnWords(x: Word, b: Word)
    requires b < 0x8000_0000
    ensures ((x >> 1) ^ (0xEDB8_8320 & !((x & 1) - 1))) ^ b
            == ((x ^ (b << 1)) >> 1) ^ (0xEDB8_8320 & !(((x ^ (b << 1)) & 1) - 1))
  {
  }

  /** A byte that enters one step later is the same as that byte one position higher now. */
  lemma LaterByte(x: Word, b: Word)
    requires b < 0x100_0000
    ensures Xor(ByteStep(x), b) == ByteStep(Xor(x, b << 8))
  {
    EightDoubles(b);
    hide BitStep, Xor, Double, HasRoom;
    var b1 := Double(b);
    var b2 := Double(b1);
    var b3 := Double(b2);
    var b4 := Double(b3);
    var b5 := Double(b4);
    var b6 := Double(b5);
    var b7 := Double(b6);
    LaterByteAt(x, b, b1, b2, b3, b4, b5, b6, b7, Double(b7));
  }

  lemma LaterByteAt(x: Word, b: Word, b1: Word, b2: Word, b3: Word, b4: Word, b5: Word, b6: Word, b7: Word, b8: Word)
    requires HasRoom(b) && HasRoom(b1) && HasRoom(b2) && HasRoom(b3) && HasRoom(b4) && HasRoom(b5) && HasRoom(b6)
    requires HasRoom(b7) && b1 == Double(b) && b2 == Double(b1) && b3 == Double(b2) && b4 == Double(b3)
    requires b5 == Double(b4) && b6 == Double(b5) && b7 == Double(b6) && b8 == Double(b7)
    ensures Xor(ByteStep(x), b) == ByteStep(Xor(x, b8))
  {
    hide BitStep, Xor, Double, HasRoom;
    var x1 := BitStep(x);
    var x2 := BitStep(x1);
    var x3 := BitStep(x2);
    var x4 := BitStep(x3);
    var x5 := BitStep(x4);
    var x6 := BitStep(x5);
    LaterBit(BitStep(x6), b);
    LaterBit(x6, b1);
    LaterBit(x5, b2);
    LaterBit(x4, b3);
    LaterBit(x3, b4);
    LaterBit(x2, b5);
    LaterBit(x1, b6);
    LaterBit(x, b7);
  }

  lemma EightDoubles(b: Word)
    requires b < 0x100_0000
    ensures HasRoom(b) && HasRoom(Double(b)) && HasRoom(Double(Double(b))) && HasRoom(Double(Double(Double(b))))
    ensures var b4 := Double(Double(Double(Double(b))));
            && HasRoom(b4) && HasRoom(Double(b4)) && HasRoom(Double(Double(b4))) && HasRoom(Double(Double(Double(b4))))
            && Double(Double(Double(Double(b4)))) == b << 8
  {
  }

  /** Eight bit steps act on the low byte alone and shift the rest down. */
  lemma LowByteOnlyNamed(x: Word)
    ensures ByteStep(x) == Xor(ByteStep(LowByte(x)), Shift8(x))
  {
    LowAndHigh(x);
    hide ByteStep, Xor;
    LaterByte(LowByte(x), Shift8(x));
  }

  lemma LowAndHigh(x: Word)
    ensures Shift8(x) < 0x100_0000 && Xor(LowByte(x), Shift8(x) << 8) == x
  {
  }

  lemma TableLookup(d: Word, b: byte)
    ensures ByteStep(Xor(d, Widen(b))) == Xor(TableSteps(LowByte(Xor(d, Widen(b))), 8), Shift8(d))
  {
    var x := Xor(d, Widen(b));
    LowByteOnlyNamed(x);
    LookupParts(d, b);
    hide Xor, Widen, LowByte, Shift8, BitStep, TableStep, ByteStep;
    TableIsSteps(LowByte(x), 8);
    EightSteps(LowByte(x));
  }

  lemma LookupParts(d: Word, b: byte)
    ensures Shift8(Xor(d, Widen(b))) == Shift8(d)
  {
  }

  lemma {:induction false} FeedIsRfcUpdate(c: Word, data: seq<byte>)
    ensures Feed(c, data) == RfcUpdate(c, data)
  {
    hide ByteStep, TableSteps, Xor, Widen, LowByte, Shift8;
    if data != [] {
      var n := |data| - 1;
      FeedIsRfcUpdate(c, data[..n]);
      TableLookup(Feed(c, data[..n]), data[n]);
    }
  }

  /** The loop computes the CRC of RFC 1952. */
  lemma CrcIsRfc1952(data: seq<byte>)
    ensures Crc(data) == RfcCrc(data)
  {
    ComplementIsXor(Feed(INIT, data));
    hide Feed, RfcUpdate, Not, Xor;
    FeedIsRfcUpdate(INIT, data);
  }

  lemma ComplementIsXor(x: Word)
    ensures Not(x) == Xor(x, INIT) && Xor(0, INIT) == INIT
  {
  }

  // ---- what the CRC detects ----

  lemma BitStepInjective(c: Word, d: Word)
    requires BitStep(c) == BitStep(d)
    ensures c == d
  {
  }

  lemma ByteStepInjective(c: Word, d: Word)
    requires ByteStep(c) == ByteStep(d)
    ensures c == d
  {
    hide BitStep;
    var c1, d1 := BitStep(c), BitStep(d);
    var c2, d2 := BitStep(c1), BitStep(d1);
    var c3, d3 := BitStep(c2), BitStep(d2);
    var c4, d4 := BitStep(c3), BitStep(d3);
    var c5, d5 := BitStep(c4), BitStep(d4);
    var c6, d6 := BitStep(c5), BitStep(d5);
    BitStepInjective(BitStep(c6), BitStep(d6));
    BitStepInjective(c6, d6);
    BitStepInjective(c5, d5);
    BitStepInjective(c4, d4);
    BitStepInjective(c3, d3);
    BitStepInjective(c2, d2);
    BitStepInjective(c1, d1);
    BitStepInjective(c, d);
  }

  lemma XorCancel(a: Word, b: Word, x: Word)
    ensures Xor(a, x) == Xor(b, x) ==> a == b
    ensures Xor(x, a) == Xor(x, b) ==> a == b
  {
  }

  /** The register map of a fixed byte string is injective. */
  lemma {:induction false} FeedInjective(c: Word, d: Word, data: seq<byte>)
    requires Feed(c, data) == Feed(d, data)
    ensures c == d
  {
    hide ByteStep, Xor, Widen;
    if data != [] {
      var n := |data| - 1;
      var b := Widen(data[n]);
      ByteStepInjective(Xor(Feed(c, data[..n]), b), Xor(Feed(d, data[..n]), b));
      XorCancel(Feed(c, data[..n]), Feed(d, data[..n]), b);
      FeedInjective(c, d, data[..n]);
    }
  }

  lemma {:induction false} FeedConcat(c: Word, x: seq<byte>, y: seq<byte>)
    ensures Feed(c, x + y) == Feed(Feed(c, x), y)
  {
    hide ByteStep, Xor, Widen;
    if y == [] {
      assert x + y == x;
    } else {
      var n := |y| - 1;
      assert (x + y)[..|x + y| - 1] == x + y[..n];
      FeedConcat(c, x, y[..n]);
    }
  }

  function Shl(b: byte, k: nat): Word
    requires k <= 24
  {
    (b as Word) << k
  }

  /** A byte at bit position 8 k, moved up one position by one byte step. */
  lemma LaterShift(x: Word, b: byte, k: nat)
    requires k == 0 || k == 8 || k == 16
    ensures Xor(ByteStep(x), Shl(b, k)) == ByteStep(Xor(x, Shl(b, k + 8)))
  {
    ShiftOnce(b, k);
    LaterByte(x, Shl(b, k));
  }

  lemma ShiftOnce(b: byte, k: nat)
    requires k == 0 || k == 8 || k == 16
    ensures Shl(b, k) < 0x100_0000 && Shl(b, k) << 8 == Shl(b, k + 8)
  {
    if k == 0 {
    } else if k == 8 {
    } else {
    }
  }

  lemma ShlZero(b: byte)
    ensures Shl(b, 0) == Widen(b)
  {
  }

  /** Four bytes as one word, the first byte lowest. */
  function Word4(a: byte, b: byte, c: byte, d: byte): Word {
    Xor(Xor(Xor(Widen(a), Shl(b, 8)), Shl(c, 16)), Shl(d, 24))
  }

  lemma Word4Injective(a: byte, b: byte, c: byte, d: byte, e: byte, f: byte, g: byte, h: byte)
    requires Word4(a, b, c, d) == Word4(e, f, g, h)
    ensures a == e && b == f && c == g && d == h
  {
    Word4Bytes(a, b, c, d);
    Word4Bytes(e, f, g, h);
    hide Word4;
  }

  lemma Word4Bytes(a: byte, b: byte, c: byte, d: byte)
    ensures var w := Word4(a, b, c, d);
            (w & 0xFF) as byte == a && ((w >> 8) & 0xFF) as byte == b
            && ((w >> 16) & 0xFF) as byte == c && ((w >> 24) & 0xFF) as byte == d
  {
    RawBytes(a, b, c, d);
  }

  lemma RawBytes(a: byte, b: byte, c: byte, d: byte)
    ensures var w := (((a as Word) ^ ((b as Word) << 8)) ^ ((c as Word) << 16)) ^ ((d as Word) << 24);
            (w & 0xFF) as byte == a && ((w >> 8) & 0xFF) as byte == b
            && ((w >> 16) & 0xFF) as byte == c && ((w >> 24) & 0xFF) as byte == d
  {
  }

  function Four(c: Word): Word {
    ByteStep(ByteStep(ByteStep(ByteStep(c))))
  }

  /** Four bytes act like one 32-bit word XOR-ed in at the start. */
  lemma FeedWord(c: Word, w: seq<byte>)
    requires |w| == 4
    ensures Feed(c, w) == Four(Xor(c, Word4(w[0], w[1], w[2], w[3])))
  {
    FeedFour(c, w);
    FourBytes(c, w[0], w[1], w[2], w[3]);
  }

  lemma FeedFour(c: Word, w: seq<byte>)
    requires |w| == 4
    ensures Feed(c, w) ==
      ByteStep(Xor(ByteStep(Xor(ByteStep(Xor(ByteStep(Xor(c, Widen(w[0]))), Widen(w[1]))), Widen(w[2]))), Widen(w[3])))
  {
    hide ByteStep, Xor, Widen;
    assert w[..3][..2] == w[..2] && w[..2][..1] == w[..1] && w[..1][..0] == [];
    assert Feed(c, w[..1]) == ByteStep(Xor(c, Widen(w[0])));
    assert Feed(c, w[..2]) == ByteStep(Xor(Feed(c, w[..1]), Widen(w[1])));
    assert Feed(c, w[..3]) == ByteStep(Xor(Feed(c, w[..2]), Widen(w[2])));
  }

  lemma FourBytes(c: Word, b0: byte, b1: byte, b2: byte, b3: byte)
    ensures ByteStep(Xor(ByteStep(Xor(ByteStep(Xor(ByteStep(Xor(c, Widen(b0))), Widen(b1))), Widen(b2))), Widen(b3)))
            == Four(Xor(c, Word4(b0, b1, b2, b3)))
  {
    XorOrder(c, b0, b1, b2, b3);
    hide ByteStep, Xor, Widen, Shl;
    ShlZero(b1);
    ShlZero(b2);
    ShlZero(b3);
    var x0 := Xor(c, Widen(b0));
    var x1 := Xor(x0, Shl(b1, 8));
    var x2 := Xor(x1, Shl(b2, 16));
    LaterShift(x0, b1, 0);
    LaterShift(ByteStep(x1), b2, 0);
    LaterShift(x1, b2, 8);
    LaterShift(ByteStep(ByteStep(x2)), b3, 0);
    LaterShift(ByteStep(x2), b3, 8);
    LaterShift(x2, b3, 16);
  }

  lemma XorOrder(c: Word, b0: byte, b1: byte, b2: byte, b3: byte)
    ensures Xor(Xor(Xor(Xor(c, Widen(b0)), Shl(b1, 8)), Shl(b2, 16)), Shl(b3, 24)) == Xor(c, Word4(b0, b1, b2, b3))
  {
    hide Widen, Shl;
    XorAssoc(c, Widen(b0), Shl(b1, 8));
    XorAssoc(c, Xor(Widen(b0), Shl(b1, 8)), Shl(b2, 16));
    XorAssoc(c, Xor(Xor(Widen(b0), Shl(b1, 8)), Shl(b2, 16)), Shl(b3, 24));
    hide Xor;
  }

  lemma XorAssoc(x: Word, y: Word, z: Word)
    ensures Xor(Xor(x, y), z) == Xor(x, Xor(y, z))
  {
    RawXorAssoc(x, y, z);
  }

  lemma RawXorAssoc(x: Word, y: Word, z: Word)
    ensures (x ^ y) ^ z == x ^ (y ^ z)
  {
  }

  lemma FourInjective(c: Word, d: Word)
    requires Four(c) == Four(d)
    ensures c == d
  {
    hide ByteStep;
    ByteStepInjective(ByteStep(ByteStep(ByteStep(c))), ByteStep(ByteStep(ByteStep(d))));
    ByteStepInjective(ByteStep(ByteStep(c)), ByteStep(ByteStep(d)));
    ByteStepInjective(ByteStep(c), ByteStep(d));
    ByteStepInjective(c, d);
  }

  lemma FourDistinct(c: Word, w: seq<byte>, v: seq<byte>)
    requires |w| == |v| == 4 && Feed(c, w) == Feed(c, v)
    ensures w == v
  {
    hide ByteStep, Feed, Xor, Four, Word4;
    FeedWord(c, w);
    FeedWord(c, v);
    var x, y := Word4(w[0], w[1], w[2], w[3]), Word4(v[0], v[1], v[2], v[3]);
    FourInjective(Xor(c, x), Xor(c, y));
    XorCancel(x, y, c);
    Word4Injective(w[0], w[1], w[2], w[3], v[0], v[1], v[2], v[3]);
  }

  /** Different windows of at most four bytes leave different registers. */
  lemma ShortWindow(c: Word, w: seq<byte>, v: seq<byte>)
    requires |w| == |v| <= 4 && w != v
    ensures Feed(c, w) != Feed(c, v)
  {
    hide ByteStep, Feed;
    var pad := seq(4 - |w|, _ => 0 as byte);
    FeedConcat(c, w, pad);
    FeedConcat(c, v, pad);
    assert w == (w + pad)[..|w|] && v == (v + pad)[..|w|];
    if Feed(c, w + pad) == Feed(c, v + pad) {
      FourDistinct(c, w + pad, v + pad);
    }
  }

  /** Two payloads of the same length that differ, but only inside four consecutive bytes, have different CRCs. */
  lemma BurstDetected(a: seq<byte>, b: seq<byte>, k: nat)
    requires |a| == |b| && a != b
    requires forall i :: 0 <= i < |a| && !(k <= i < k + 4) ==> a[i] == b[i]
    ensures Crc(a) != Crc(b)
  {
    hide Feed, Not;
    var lo := if k <= |a| then k else |a|;
    var hi := if k + 4 <= |a| then k + 4 else |a|;
    assert a[..lo] == b[..lo] && a[hi..] == b[hi..];
    assert a == a[..lo] + a[lo..hi] + a[hi..] && b == b[..lo] + b[lo..hi] + b[hi..];
    FeedConcat(INIT, a[..lo] + a[lo..hi], a[hi..]);
    FeedConcat(INIT, b[..lo] + b[lo..hi], b[hi..]);
    FeedConcat(INIT, a[..lo], a[lo..hi]);
    FeedConcat(INIT, b[..lo], b[lo..hi]);
    ShortWindow(Feed(INIT, a[..lo]), a[lo..hi], b[lo..hi]);
    SuffixKeepsDifference(Feed(INIT, a[..lo] + a[lo..hi]), Feed(INIT, b[..lo] + b[lo..hi]), a[hi..]);
    ComplementInjective(Feed(INIT, a), Feed(INIT, b));
  }

  lemma SuffixKeepsDifference(c: Word, d: Word, data: seq<byte>)
    requires c != d
    ensures Feed(c, data) != Feed(d, data)
  {
    hide Feed;
    if Feed(c, data) == Feed(d, data) {
      FeedInjective(c, d, data);
    }
  }

  lemma ComplementInjective(x: Word, y: Word)
    ensures Not(x) == Not(y) ==> x == y
  {
  }

  // ---- the check value ----

  /** "123456789" */
  const CHECK: seq<byte> := [0x31, 0x32, 0x33, 0x34, 0x35, 0x36, 0x37, 0x38, 0x39]

  /** The published check value of this CRC. */
  lemma CheckValue()
    ensures Crc(CHECK) == 0xCBF4_3926
  {
    hide Feed;
    assert CHECK[..1] == CHECK[..0] + [0x31] && CHECK[..2] == CHECK[..1] + [0x32] && CHECK[..3] == CHECK[..2] + [0x33];
    assert CHECK[..4] == CHECK[..3] + [0x34] && CHECK[..5] == CHECK[..4] + [0x35] && CHECK[..6] == CHECK[..5] + [0x36];
    assert CHECK[..7] == CHECK[..6] + [0x37] && CHECK[..8] == CHECK[..7] + [0x38] && CHECK[..9] == CHECK[..8] + [0x39];
    assert CHECK[..0] == [] && CHECK[..9] == CHECK;
    FeedNothing(INIT);
    OneMore(INIT, CHECK[..0], 0x31, 0xffffffff, 0x7c231048);
    OneMore(INIT, CHECK[..1], 0x32, 0x7c231048, 0xb0acbb32);
    OneMore(INIT, CHECK[..2], 0x33, 0xb0acbb32, 0x77b79c2d);
    OneMore(INIT, CHECK[..3], 0x34, 0x77b79c2d, 0x641c1f5c);
    OneMore(INIT, CHECK[..4], 0x35, 0x641c1f5c, 0x340ac5e3);
    OneMore(INIT, CHECK[..5], 0x36, 0x340ac5e3, 0xf68d2c9e);
    OneMore(INIT, CHECK[..6], 0x37, 0xf68d2c9e, 0xaffc9660);
    OneMore(INIT, CHECK[..7], 0x38, 0xaffc9660, 0x651f2550);
    OneMore(INIT, CHECK[..8], 0x39, 0x651f2550, 0x340bc6d9);
  }

  lemma FeedNothing(c: Word)
    ensures Feed(c, []) == c
  {
  }

  lemma OneMore(c: Word, data: seq<byte>, b: byte, before: Word, after: Word)
    requires Feed(c, data) == before && ByteStep(Xor(before, Widen(b))) == after
    ensures Feed(c, data + [b]) == after
  {
    hide ByteStep, Xor, Widen;
    assert (data + [b])[..|data|] == data;
  }
}
