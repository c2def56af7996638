/** ChaCha20 as sections 2.1 to 2.3 of RFC 8439 define it, with the 64-bit counter and 64-bit nonce of the original
    cipher in place of the 32-bit counter and 96-bit nonce, and the proof that its double rounds are a bijection. */
module ChaCha20 {
  import opened Arith
  import opened Bits
  import opened Bytes
  import opened Octets

  /** A uint32_t. */
  type Word = w: nat | w < TWO32 witness 0
  type State = s: seq<Word> | |s| == 16 witness seq(16, _ => 0)
  type Key = k: seq<Word> | |k| == 8 witness seq(8, _ => 0)
  type Nonce = k: seq<Word> | |k| == 2 witness seq(2, _ => 0)

  /** Addition modulo 2^32 and its inverse. */
  function Add(x: Word, y: Word): Word { (x + y) % TWO32 }
  function Sub(x: Word, y: Word): Word { (x - y) % TWO32 }

  /** Exclusive or, bit by bit. */
  function BitXor(x: nat, y: nat, w: nat): (r: nat)
    ensures r < Pow2(w)
  {
    if w == 0 then 0 else (x + y) % 2 + 2 * BitXor(x / 2, y / 2, w - 1)
  }

  function Xor(x: Word, y: Word): Word {
    Pow2Of32();
    BitXor(x, y, 32)
  }

  function Shl(x: Word, n: nat): Word { x * Pow2(n) % TWO32 }

  function Shr(x: Word, n: nat): (r: nat) {
    var p := Pow2(n);
    QuotientNonnegative(x, p);
    x / p
  }

  function Rotl(x: Word, n: nat): (r: Word)
    requires 0 < n < 32
  {
    Pow2Of32();
    BitOr(Shl(x, n), Shr(x, 32 - n), 32)
  }

  datatype Quad = Quad(a: Word, b: Word, c: Word, d: Word)

  /** The quarter round of section 2.1. */
  function QuarterRound(q: Quad): Quad {
    var a1 := Add(q.a, q.b);
    var d1 := Rotl(Xor(q.d, a1), 16);
    var c1 := Add(q.c, d1);
    var b1 := Rotl(Xor(q.b, c1), 12);
    var a2 := Add(a1, b1);
    var d2 := Rotl(Xor(d1, a2), 8);
    var c2 := Add(c1, d2);
    var b2 := Rotl(Xor(b1, c2), 7);
    Quad(a2, b2, c2, d2)
  }

  /** Four positions of the 4 x 4 state. */
  datatype Lane = Lane(a: nat, b: nat, c: nat, d: nat) {
    predicate Ok() {
      && a < 16 && b < 16 && c < 16 && d < 16
      && a != b && a != c && a != d && b != c && b != d && c != d
    }
  }

  function Pick(s: State, l: Lane): Quad
    requires l.Ok()
  {
    Quad(s[l.a], s[l.b], s[l.c], s[l.d])
  }

  function Put(s: State, l: Lane, q: Quad): (r: State)
    requires l.Ok()
    ensures Pick(r, l) == q
    ensures forall i :: 0 <= i < 16 && i != l.a && i != l.b && i != l.c && i != l.d ==> r[i] == s[i]
  {
    s[l.a := q.a][l.b := q.b][l.c := q.c][l.d := q.d]
  }

  function QuarterRoundAt(s: State, l: Lane): State
    requires l.Ok()
  {
    Put(s, l, QuarterRound(Pick(s, l)))
  }

  /** Section 2.3: four column rounds, then four diagonal rounds. */
  function LaneAt(i: nat): (l: Lane)
    requires i < 8
    ensures l.Ok()
  {
    if i < 4 then Lane(i, i + 4, i + 8, i + 12)
    else var j := i - 4; Lane(j, 4 + (j + 1) % 4, 8 + (j + 2) % 4, 12 + (j + 3) % 4)
  }

  /** The first `n` of the eight quarter rounds of a double round. */
  function Lanes(s: State, n: nat): State
    requires n <= 8
  {
    if n == 0 then s else QuarterRoundAt(Lanes(s, n - 1), LaneAt(n - 1))
  }

  function DoubleRound(s: State): State { Lanes(s, 8) }

  function DoubleRounds(s: State, n: nat): State {
    if n == 0 then s else DoubleRound(DoubleRounds(s, n - 1))
  }

  /** Constants, key, counter (low word first) and nonce. */
  function InitialState(key: Key, counter: nat, nonce: Nonce): State
    requires counter < TWO64
  {
    [0x61707865, 0x3320646e, 0x79622d32, 0x6b206574] + key +
    [counter % TWO32, counter / TWO32] + nonce
  }

  function AddStates(x: State, y: State): State {
    seq(16, i requires 0 <= i < 16 => Add(x[i], y[i]))
  }

  /** The words' bytes, least significant first. */
  function Serialize(s: seq<Word>): (r: seq<byte>)
    ensures |r| == 4 * |s|
  {
    if s == [] then [] else Serialize(s[..|s| - 1]) + LE(s[|s| - 1], 4)
  }

  function Block(key: Key, counter: nat, nonce: Nonce): (r: seq<byte>)
    requires counter < TWO64
    ensures |r| == 64
  {
    var s := InitialState(key, counter, nonce);
    Serialize(AddStates(DoubleRounds(s, 10), s))
  }

  /** Byte `pos` of the stream: byte pos mod 64 of block pos div 64, whose counter is a 64-bit word. */
  function StreamByte(key: Key, nonce: Nonce, pos: nat): byte {
    Block(key, pos / 64 % TWO64, nonce)[pos % 64]
  }

  function Stream(key: Key, nonce: Nonce, pos: nat, n: nat): (r: seq<byte>)
    ensures |r| == n
  {
    seq(n, i requires 0 <= i < n => StreamByte(key, nonce, pos + i))
  }

  lemma StreamSplit(key: Key, nonce: Nonce, pos: nat, m: nat, n: nat)
    ensures Stream(key, nonce, pos, m + n) == Stream(key, nonce, pos, m) + Stream(key, nonce, pos + m, n)
  {
    hide StreamByte;
    var l, r := Stream(key, nonce, pos, m + n), Stream(key, nonce, pos, m) + Stream(key, nonce, pos + m, n);
    forall i | 0 <= i < m + n ensures l[i] == r[i] {
      if i >= m {
        assert pos + m + (i - m) == pos + i;
      }
    }
  }

  // ---- the double round is a bijection ----

  function InverseQuarterRound(q: Quad): Quad {
    var b1 := Xor(Rotl(q.b, 25), q.c);
    var c1 := Sub(q.c, q.d);
    var d1 := Xor(Rotl(q.d, 24), q.a);
    var a1 := Sub(q.a, b1);
    var b0 := Xor(Rotl(b1, 20), c1);
    var c0 := Sub(c1, d1);
    var d0 := Xor(Rotl(d1, 16), a1);
    var a0 := Sub(a1, b0);
    Quad(a0, b0, c0, d0)
  }

  lemma Pow2Of32()
    ensures Pow2(32) == TWO32
  {
    Pow2Of16();
    Pow2Add(16, 16);
  }

  /** The two halves of a word change places. */
  lemma RotlClosedForm(x: Word, n: nat)
    requires 0 < n < 32
    ensures var h, p := Pow2(32 - n), Pow2(n);
            x / h < p && Rotl(x, n) == x % h * p + x / h
  {
    hide BitOr, Pow2;
    var h, p := Pow2(32 - n), Pow2(n);
    Pow2Of32();
    Pow2Add(32 - n, n);
    var q, r := x / h, x % h;
    QuotientBound(x, h, p);
    MulStep(r, h, p);
    ShiftedLeft(q, r, h, p);
    assert x == q * h + r;
    OrDisjoint(q, r, n, 32);
    OrCommutes(r * p, q, 32);
  }

  lemma {:induction false} OrCommutes(x: nat, y: nat, w: nat)
    ensures BitOr(x, y, w) == BitOr(y, x, w)
  {
    if w > 0 {
      OrCommutes(x / 2, y / 2, w - 1);
    }
  }

  lemma QuotientBound(x: nat, h: nat, p: nat)
    requires 0 < h && x < h * p
    ensures x / h < p
  {
    var q := x / h;
    assert q * h <= x;
    if p <= q {
      Scaled(p, q, h);
    }
  }

  lemma Scaled(p: nat, q: nat, h: nat)
    requires p <= q
    ensures p * h <= q * h
  {
    assert q * h == p * h + (q - p) * h;
  }

  lemma ShiftedLeft(q: nat, r: nat, h: nat, p: nat)
    requires h * p == TWO32 && r * p < TWO32
    ensures (q * h + r) * p % TWO32 == r * p
  {
    assert (q * h + r) * p == q * TWO32 + r * p by {
      assert (q * h + r) * p == q * (h * p) + r * p;
    }
    DivModUnique((q * h + r) * p, TWO32, q, r * p);
  }

  lemma AddSub(x: Word, y: Word)
    ensures Sub(Add(x, y), y) == x && Add(Sub(x, y), y) == x
  {
    AddSubOnWords(x, y);
  }

  lemma AddSubOnWords(x: Word, y: Word)
    ensures (x + y) - y == x && (x - y) + y == x
  {
  }

  lemma ParityTwice(x: nat, y: nat, z: nat, rest: nat)
    requires z == (x + y) % 2 + 2 * rest
    ensures z / 2 == rest && (z + y) % 2 == x % 2
  {
  }

  lemma {:induction false} BitXorTwice(x: nat, y: nat, w: nat)
    requires x < Pow2(w)
    ensures BitXor(BitXor(x, y, w), y, w) == x
  {
    if w > 0 {
      var z, rest := BitXor(x, y, w), BitXor(x / 2, y / 2, w - 1);
      assert z == (x + y) % 2 + 2 * rest;
      BitXorTwice(x / 2, y / 2, w - 1);
      ParityTwice(x, y, z, rest);
    }
  }

  lemma XorTwice(x: Word, y: Word)
    ensures Xor(Xor(x, y), y) == x
  {
    hide BitXor;
    Pow2Of32();
    BitXorTwice(x, y, 32);
  }

  lemma SwapTwice(x: nat, h: nat, p: nat)
    requires h > 0 && p > 0 && x / h < p
    ensures var y := x % h * p + x / h; y % p * h + y / p == x
  {
    DivModUnique(x % h * p + x / h, p, x % h, x / h);
    assert x == x / h * h + x % h;
  }

  lemma RotlBack(x: Word, n: nat)
    requires 0 < n < 32
    ensures Rotl(Rotl(x, n), 32 - n) == x
  {
    hide Rotl, Pow2;
    var m := 32 - n;
    assert 32 - m == n;
    RotlClosedForm(x, n);
    SwapTwice(x, Pow2(m), Pow2(n));
    RotlClosedForm(Rotl(x, n), m);
  }

  lemma QuarterRoundInverse(q: Quad)
    ensures InverseQuarterRound(QuarterRound(q)) == q
  {
    hide Add, Sub, Xor, Rotl;
    var a1 := Add(q.a, q.b);
    var d1 := Rotl(Xor(q.d, a1), 16);
    var c1 := Add(q.c, d1);
    var b1 := Rotl(Xor(q.b, c1), 12);
    var a2 := Add(a1, b1);
    var d2 := Rotl(Xor(d1, a2), 8);
    var c2 := Add(c1, d2);
    RotlBack(Xor(q.d, a1), 16);
    RotlBack(Xor(q.b, c1), 12);
    RotlBack(Xor(d1, a2), 8);
    RotlBack(Xor(b1, c2), 7);
    XorTwice(q.d, a1);
    XorTwice(q.b, c1);
    XorTwice(d1, a2);
    XorTwice(b1, c2);
    AddSub(q.a, q.b);
    AddSub(q.c, d1);
    AddSub(a1, b1);
    AddSub(c1, d2);
  }

  lemma InverseQuarterRoundInverse(q: Quad)
    ensures QuarterRound(InverseQuarterRound(q)) == q
  {
    hide Add, Sub, Xor, Rotl;
    var b1 := Xor(Rotl(q.b, 25), q.c);
    var c1 := Sub(q.c, q.d);
    var d1 := Xor(Rotl(q.d, 24), q.a);
    var a1 := Sub(q.a, b1);
    var b0 := Xor(Rotl(b1, 20), c1);
    XorTwice(Rotl(q.b, 25), q.c);
    XorTwice(Rotl(q.d, 24), q.a);
    XorTwice(Rotl(b1, 20), c1);
    XorTwice(Rotl(d1, 16), a1);
    RotlBack(q.b, 25);
    RotlBack(q.d, 24);
    RotlBack(b1, 20);
    RotlBack(d1, 16);
    AddSub(q.c, q.d);
    AddSub(q.a, b1);
    AddSub(c1, d1);
    AddSub(a1, b0);
  }

  function InverseQuarterRoundAt(s: State, l: Lane): State
    requires l.Ok()
  {
    Put(s, l, InverseQuarterRound(Pick(s, l)))
  }

  lemma QuarterRoundAtInverse(s: State, l: Lane)
    requires l.Ok()
    ensures InverseQuarterRoundAt(QuarterRoundAt(s, l), l) == s
    ensures QuarterRoundAt(InverseQuarterRoundAt(s, l), l) == s
  {
    hide QuarterRound, InverseQuarterRound;
    QuarterRoundInverse(Pick(s, l));
    InverseQuarterRoundInverse(Pick(s, l));
  }

  /** Undoes Lanes(_, n). */
  function InverseLanes(s: State, n: nat): State
    requires n <= 8
    decreases n
  {
    if n == 0 then s else InverseLanes(InverseQuarterRoundAt(s, LaneAt(n - 1)), n - 1)
  }

  lemma {:induction false} LanesInverse(s: State, n: nat)
    requires n <= 8
    ensures InverseLanes(Lanes(s, n), n) == s
    ensures Lanes(InverseLanes(s, n), n) == s
    decreases n
  {
    hide QuarterRoundAt, InverseQuarterRoundAt, LaneAt;
    if n > 0 {
      QuarterRoundAtInverse(Lanes(s, n - 1), LaneAt(n - 1));
      LanesInverse(s, n - 1);
      var t := InverseQuarterRoundAt(s, LaneAt(n - 1));
      QuarterRoundAtInverse(s, LaneAt(n - 1));
      LanesInverse(t, n - 1);
    }
  }

  function InverseDoubleRounds(s: State, n: nat): State
    decreases n
  {
    if n == 0 then s else InverseDoubleRounds(InverseLanes(s, 8), n - 1)
  }

  /** Any number of double rounds is a bijection on states, with the stated inverse. */
  lemma {:induction false} DoubleRoundsBijective(s: State, n: nat)
    ensures InverseDoubleRounds(DoubleRounds(s, n), n) == s
    ensures DoubleRounds(InverseDoubleRounds(s, n), n) == s
    decreases n
  {
    hide Lanes, InverseLanes;
    if n > 0 {
      LanesInverse(DoubleRounds(s, n - 1), 8);
      DoubleRoundsBijective(s, n - 1);
      LanesInverse(s, 8);
      DoubleRoundsBijective(InverseLanes(s, 8), n - 1);
    }
  }

  /** Under one key and nonce, two counters never give the same input state nor the same permuted state. */
  lemma StatesNeverRepeat(key: Key, nonce: Nonce, c: nat, d: nat)
    requires c < TWO64 && d < TWO64 && c != d
    ensures InitialState(key, c, nonce) != InitialState(key, d, nonce)
    ensures DoubleRounds(InitialState(key, c, nonce), 10) != DoubleRounds(InitialState(key, d, nonce), 10)
  {
    hide DoubleRounds, InverseDoubleRounds;
    var s, t := InitialState(key, c, nonce), InitialState(key, d, nonce);
    assert s[12] == c % TWO32 && s[13] == c / TWO32;
    assert t[12] == d % TWO32 && t[13] == d / TWO32;
    DoubleRoundsBijective(s, 10);
    DoubleRoundsBijective(t, 10);
  }

  // ---- the layout of the state ----

  lemma {:induction false} SerializeAppend(a: seq<Word>, b: seq<Word>)
    ensures Serialize(a + b) == Serialize(a) + Serialize(b)
  {
    if b == [] {
      assert a + b == a;
    } else {
      SerializeAppend(a, b[..|b| - 1]);
      assert (a + b)[..|a + b| - 1] == a + b[..|b| - 1];
    }
  }

  lemma SerializeLast(s: seq<Word>)
    requires s != []
    ensures Serialize(s) == Serialize(s[..|s| - 1]) + LE(s[|s| - 1], 4)
  {
  }

  lemma {:induction false} SerializeAt(s: seq<Word>, i: nat)
    requires i < |s|
    ensures Serialize(s)[4 * i..4 * i + 4] == LE(s[i], 4)
  {
    hide LE, Serialize;
    var n := |s| - 1;
    SerializeLast(s);
    if i < n {
      SerializeAt(s[..n], i);
      assert Serialize(s)[4 * i..4 * i + 4] == Serialize(s[..n])[4 * i..4 * i + 4];
    } else {
      assert Serialize(s)[4 * n..4 * n + 4] == LE(s[n], 4);
    }
  }

  /** The sums of a block are word by word, modulo 2^32. */
  lemma AddStatesAt(x: State, y: State, i: nat)
    requires i < 16
    ensures var a: int, b: int := x[i], y[i]; AddStates(x, y)[i] == (a + b) % 0x1_0000_0000
  {
  }

  /** The words are read from consecutive groups of four bytes. */
  ghost predicate ReadFrom(words: seq<Word>, bytes: seq<byte>) {
    |bytes| == 4 * |words| && forall i :: 0 <= i < |words| ==> words[i] == FromLE(bytes[4 * i..4 * i + 4])
  }

  /** Such words are written as those bytes again. */
  lemma {:induction false} SerializeRead(words: seq<Word>, bytes: seq<byte>)
    requires ReadFrom(words, bytes)
    ensures Serialize(words) == bytes
  {
    if words != [] {
      hide LE, Serialize;
      var n := |words| - 1;
      ReadFromSplit(words, bytes);
      hide ReadFrom;
      SerializeRead(words[..n], bytes[..4 * n]);
      SerializeLast(words);
      LEOfRead(bytes[4 * n..]);
      assert bytes == bytes[..4 * n] + bytes[4 * n..];
    }
  }

  lemma ReadFromSplit(words: seq<Word>, bytes: seq<byte>)
    requires ReadFrom(words, bytes) && words != []
    ensures var n := |words| - 1;
            |bytes| == 4 * n + 4 && ReadFrom(words[..n], bytes[..4 * n]) && words[n] == FromLE(bytes[4 * n..])
  {
    hide FromLE;
    var n := |words| - 1;
    forall i | 0 <= i < n ensures words[..n][i] == FromLE(bytes[..4 * n][4 * i..4 * i + 4]) {
      assert bytes[..4 * n][4 * i..4 * i + 4] == bytes[4 * i..4 * i + 4];
    }
    assert bytes[4 * n..4 * n + 4] == bytes[4 * n..];
  }

  /** Constants, key, block counter and nonce, in this order and with the low byte of every number first. */
  lemma StateBytes(key: Key, c: nat, nonce: Nonce)
    requires c < TWO64
    ensures Serialize(InitialState(key, c, nonce))
         == EXPAND_32_BYTE_K + Serialize(key) + LE(c, 8) + Serialize(nonce)
  {
    hide Serialize, LE;
    var constants := [0x61707865, 0x3320646e, 0x79622d32, 0x6b206574];
    var counter := [c % TWO32, c / TWO32];
    ConstantBytes();
    CounterBytes(c);
    SerializeAppend(constants, key);
    SerializeAppend(constants + key, counter);
    SerializeAppend(constants + key + counter, nonce);
  }

  /** "expand 32-byte k" */
  const EXPAND_32_BYTE_K: seq<byte> :=
    [0x65, 0x78, 0x70, 0x61, 0x6e, 0x64, 0x20, 0x33, 0x32, 0x2d, 0x62, 0x79, 0x74, 0x65, 0x20, 0x6b]

  lemma ConstantBytes()
    ensures Serialize([0x61707865, 0x3320646e, 0x79622d32, 0x6b206574]) == EXPAND_32_BYTE_K
  {
    hide Serialize, LE;
    WordBytes(0x61707865, 0x65, 0x78, 0x70, 0x61);
    WordBytes(0x3320646e, 0x6e, 0x64, 0x20, 0x33);
    WordBytes(0x79622d32, 0x32, 0x2d, 0x62, 0x79);
    WordBytes(0x6b206574, 0x74, 0x65, 0x20, 0x6b);
    FourWords(0x61707865, 0x3320646e, 0x79622d32, 0x6b206574);
  }

  lemma FourWords(a: Word, b: Word, c: Word, d: Word)
    ensures Serialize([a, b, c, d]) == LE(a, 4) + LE(b, 4) + LE(c, 4) + LE(d, 4)
  {
    hide Serialize, LE;
    SerializeOne(a);
    SerializeOne(b);
    SerializeOne(c);
    SerializeOne(d);
    SerializeAppend([a], [b]);
    SerializeAppend([a, b], [c]);
    SerializeAppend([a, b, c], [d]);
    assert [a] + [b] == [a, b] && [a, b] + [c] == [a, b, c] && [a, b, c] + [d] == [a, b, c, d];
    hide *;
  }

  lemma SerializeOne(w: Word)
    ensures Serialize([w]) == LE(w, 4)
  {
    hide LE;
    assert [w][..0] == [];
  }

  lemma WordBytes(w: Word, a: byte, b: byte, c: byte, d: byte)
    requires w == Digit(a) + 0x100 * Digit(b) + 0x1_0000 * Digit(c) + 0x100_0000 * Digit(d)
    ensures LE(w, 4) == [a, b, c, d]
  {
    hide FromLE, LE, Digit;
    ReadStep(a, [b, c, d]);
    ReadStep(b, [c, d]);
    ReadStep(c, [d]);
    ReadStep(d, []);
    assert [a] + [b, c, d] == [a, b, c, d] && [b] + [c, d] == [b, c, d] && [c] + [d] == [c, d] && [d] + [] == [d];
    LEOfRead([a, b, c, d]);
  }

  lemma ReadStep(a: byte, rest: seq<byte>)
    ensures FromLE([a] + rest) == Digit(a) + 256 * FromLE(rest) && FromLE([]) == 0
  {
    hide Digit;
    assert ([a] + rest)[1..] == rest;
  }

  lemma CounterBytes(c: nat)
    requires c < TWO64
    ensures Serialize([c % TWO32, c / TWO32]) == LE(c, 8)
  {
    hide LE;
    var s: seq<Word> := [c % TWO32, c / TWO32];
    assert s[..1] == [c % TWO32] && s[..0] == [];
    Pow256Values();
    LESplit(c, c / TWO32, c % TWO32, 4, 4);
  }

  // ---- the example of section 2.1.1 ----

  /** The four bits of a hexadecimal digit. */
  predicate Bit3(p: nat) { p >= 8 }
  predicate Bit2(p: nat) { 4 <= p < 8 || p >= 12 }
  predicate Bit1(p: nat) { 2 <= p < 4 || 6 <= p < 8 || 10 <= p < 12 || p >= 14 }
  predicate Bit0(p: nat) { p == 1 || p == 3 || p == 5 || p == 7 || p == 9 || p == 11 || p == 13 || p == 15 }

  function XorDigits(p: nat, q: nat): nat {
    (if Bit3(p) == Bit3(q) then 0 else 8) + (if Bit2(p) == Bit2(q) then 0 else 4)
    + (if Bit1(p) == Bit1(q) then 0 else 2) + (if Bit0(p) == Bit0(q) then 0 else 1)
  }

  lemma NextBit(x: nat, y: nat, b: nat, c: nat, w: nat)
    requires w >= 1 && b < 2 && c < 2
    ensures BitXor(2 * x + b, 2 * y + c, w) == (if b == c then 0 else 1) + 2 * BitXor(x, y, w - 1)
  {
  }

  lemma DigitBits(p: nat) returns (b3: nat, b2: nat, b1: nat, b0: nat)
    requires p < 16
    ensures b3 < 2 && b2 < 2 && b1 < 2 && b0 < 2 && p == 8 * b3 + 4 * b2 + 2 * b1 + b0
    ensures (b3 == 1 <==> Bit3(p)) && (b2 == 1 <==> Bit2(p)) && (b1 == 1 <==> Bit1(p)) && (b0 == 1 <==> Bit0(p))
  {
    b3, b2, b1, b0 := p / 8, p / 4 % 2, p / 2 % 2, p % 2;
  }

  /** One more digit of an exclusive or, from the top. */
  lemma NextDigit(x: nat, y: nat, p: nat, q: nat, w: nat, r: nat)
    requires w >= 4 && p < 16 && q < 16 && BitXor(x, y, w - 4) == r
    ensures BitXor(16 * x + p, 16 * y + q, w) == 16 * r + XorDigits(p, q)
  {
    hide BitXor, Bit3, Bit2, Bit1, Bit0;
    var b3, b2, b1, b0 := DigitBits(p);
    var c3, c2, c1, c0 := DigitBits(q);
    NextBit(x, y, b3, c3, w - 3);
    NextBit(2 * x + b3, 2 * y + c3, b2, c2, w - 2);
    NextBit(4 * x + 2 * b3 + b2, 4 * y + 2 * c3 + c2, b1, c1, w - 1);
    NextBit(8 * x + 4 * b3 + 2 * b2 + b1, 8 * y + 4 * c3 + 2 * c2 + c1, b0, c0, w);
  }

  lemma NoBits(x: nat, y: nat)
    ensures BitXor(x, y, 0) == 0
  {
  }

  lemma Powers()
    ensures Pow2(7) == 0x80 && Pow2(8) == 0x100 && Pow2(12) == 0x1000 && Pow2(16) == 0x1_0000
    ensures Pow2(20) == 0x10_0000 && Pow2(24) == 0x100_0000 && Pow2(25) == 0x200_0000
  {
    assert Pow2(4) == 0x10 && Pow2(7) == 0x80;
    Pow2Add(4, 4);
    Pow2Add(8, 4);
    Pow2Add(8, 8);
    Pow2Add(16, 4);
    Pow2Add(16, 8);
    assert Pow2(25) == 2 * Pow2(24);
  }

  lemma FirstXor()
    ensures Xor(0x01234567, 0x12131415) == 0x13305172
  {
    hide BitXor, Pow2;
    NoBits(0, 0);
    NextDigit(0x0, 0x0, 0x0, 0x1, 4, 0x0);
    NextDigit(0x0, 0x1, 0x1, 0x2, 8, 0x1);
    NextDigit(0x1, 0x12, 0x2, 0x1, 12, 0x13);
    NextDigit(0x12, 0x121, 0x3, 0x3, 16, 0x133);
    NextDigit(0x123, 0x1213, 0x4, 0x1, 20, 0x1330);
    NextDigit(0x1234, 0x12131, 0x5, 0x4, 24, 0x13305);
    NextDigit(0x12345, 0x121314, 0x6, 0x1, 28, 0x133051);
    NextDigit(0x123456, 0x1213141, 0x7, 0x5, 32, 0x1330517);
  }

  lemma FirstTurn()
    ensures Rotl(Xor(0x01234567, 0x12131415), 16) == 0x51721330
  {
    hide Xor, Rotl, Pow2;
    FirstXor();
    RotlClosedForm(0x13305172, 16);
    Powers();
  }

  lemma SecondXor()
    ensures Xor(0x01020304, 0xecff8273) == 0xedfd8177
  {
    hide BitXor, Pow2;
    NoBits(0, 0);
    NextDigit(0x0, 0x0, 0x0, 0xe, 4, 0x0);
    NextDigit(0x0, 0xe, 0x1, 0xc, 8, 0xe);
    NextDigit(0x1, 0xec, 0x0, 0xf, 12, 0xed);
    NextDigit(0x10, 0xecf, 0x2, 0xf, 16, 0xedf);
    NextDigit(0x102, 0xecff, 0x0, 0x8, 20, 0xedfd);
    NextDigit(0x1020, 0xecff8, 0x3, 0x2, 24, 0xedfd8);
    NextDigit(0x10203, 0xecff82, 0x0, 0x7, 28, 0xedfd81);
    NextDigit(0x102030, 0xecff827, 0x4, 0x3, 32, 0xedfd817);
  }

  lemma SecondTurn()
    ensures Rotl(Xor(0x01020304, 0xecff8273), 12) == 0xd8177edf
  {
    hide Xor, Rotl, Pow2;
    SecondXor();
    RotlClosedForm(0xedfd8177, 12);
    Powers();
  }

  lemma ThirdXor()
    ensures Xor(0x51721330, 0xea2a92f4) == 0xbb5881c4
  {
    hide BitXor, Pow2;
    NoBits(0, 0);
    NextDigit(0x0, 0x0, 0x5, 0xe, 4, 0x0);
    NextDigit(0x5, 0xe, 0x1, 0xa, 8, 0xb);
    NextDigit(0x51, 0xea, 0x7, 0x2, 12, 0xbb);
    NextDigit(0x517, 0xea2, 0x2, 0xa, 16, 0xbb5);
    NextDigit(0x5172, 0xea2a, 0x1, 0x9, 20, 0xbb58);
    NextDigit(0x51721, 0xea2a9, 0x3, 0x2, 24, 0xbb588);
    NextDigit(0x517213, 0xea2a92, 0x3, 0xf, 28, 0xbb5881);
    NextDigit(0x5172133, 0xea2a92f, 0x0, 0x4, 32, 0xbb5881c);
  }

  lemma ThirdTurn()
    ensures Rotl(Xor(0x51721330, 0xea2a92f4), 8) == 0x5881c4bb
  {
    hide Xor, Rotl, Pow2;
    ThirdXor();
    RotlClosedForm(0xbb5881c4, 8);
    Powers();
  }

  lemma FourthXor()
    ensures Xor(0xd8177edf, 0x4581472e) == 0x9d9639f1
  {
    hide BitXor, Pow2;
    NoBits(0, 0);
    NextDigit(0x0, 0x0, 0xd, 0x4, 4, 0x0);
    NextDigit(0xd, 0x4, 0x8, 0x5, 8, 0x9);
    NextDigit(0xd8, 0x45, 0x1, 0x8, 12, 0x9d);
    NextDigit(0xd81, 0x458, 0x7, 0x1, 16, 0x9d9);
    NextDigit(0xd817, 0x4581, 0x7, 0x4, 20, 0x9d96);
    NextDigit(0xd8177, 0x45814, 0xe, 0x7, 24, 0x9d963);
    NextDigit(0xd8177e, 0x458147, 0xd, 0x2, 28, 0x9d9639);
    NextDigit(0xd8177ed, 0x4581472, 0xf, 0xe, 32, 0x9d9639f);
  }

  lemma FourthTurn()
    ensures Rotl(Xor(0xd8177edf, 0x4581472e), 7) == 0xcb1cf8ce
  {
    hide Xor, Rotl, Pow2;
    FourthXor();
    RotlClosedForm(0x9d9639f1, 7);
    Powers();
  }

  lemma QuarterRoundExample()
    ensures QuarterRound(Quad(0x11111111, 0x01020304, 0x9b8d6f43, 0x01234567))
         == Quad(0xea2a92f4, 0xcb1cf8ce, 0x4581472e, 0x5881c4bb)
  {
    hide Xor, Rotl;
    FirstTurn();
    SecondTurn();
    ThirdTurn();
    FourthTurn();
  }

  /** The columns and the diagonals of the state, in the order of section 2.3. */
  lemma LanesInOrder()
    ensures LaneAt(0) == Lane(0, 4, 8, 12) && LaneAt(1) == Lane(1, 5, 9, 13)
    ensures LaneAt(2) == Lane(2, 6, 10, 14) && LaneAt(3) == Lane(3, 7, 11, 15)
    ensures LaneAt(4) == Lane(0, 5, 10, 15) && LaneAt(5) == Lane(1, 6, 11, 12)
    ensures LaneAt(6) == Lane(2, 7, 8, 13) && LaneAt(7) == Lane(3, 4, 9, 14)
  {
  }
}
