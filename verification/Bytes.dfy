/** A byte and its value. */
module Octets {

  function ToByte(d: int): bv8
    requires 0 <= d < 256
  {
    d as bv8
  }

  function Digit(b: bv8): (d: int)
    ensures 0 <= d < 256
  {
    b as int
  }

  lemma CastBack(d: int)
    requires 0 <= d < 256
    ensures (d as bv8) as int == d
  {
    match d / 16
    case 0 => case 1 => case 2 => case 3 => case 4 => case 5 => case 6 => case 7 =>
    case 8 => case 9 => case 10 => case 11 => case 12 => case 13 => case 14 => case _ =>
  }

  lemma ByteOfDigit(b: bv8)
    ensures ToByte(Digit(b)) == b
  {
  }

  lemma DigitOfByte(d: int)
    requires 0 <= d < 256
    ensures Digit(ToByte(d)) == d
  {
    CastBack(d);
  }
}

/** Little-endian integers in byte buffers, shared by every codec and by every model of guest memory. */
module Bytes {
  import opened Arith
  import opened Octets

  const TWO32: nat := 0x1_0000_0000
  const TWO48: nat := 0x1_0000_0000_0000
  const TWO64: nat := 0x1_0000_0000_0000_0000

  type byte = bv8

  function Pow256(w: nat): (p: nat)
    ensures p >= 1
  {
    if w == 0 then 1 else 256 * Pow256(w - 1)
  }

  /** The low `w` base-256 digits of `n`, least significant first. */
  function LE(n: nat, w: nat): (s: seq<byte>)
    ensures |s| == w
  {
    if w == 0 then [] else [ToByte(n % 256)] + LE(n / 256, w - 1)
  }

  function FromLE(s: seq<byte>): (n: nat)
    ensures n < Pow256(|s|)
  {
    if s == [] then 0 else Digit(s[0]) + 256 * FromLE(s[1..])
  }

  lemma {:induction false} LERoundTrip(n: nat, w: nat)
    requires n < Pow256(w)
    ensures FromLE(LE(n, w)) == n
  {
    hide ToByte, Digit;
    if w > 0 {
      LERoundTrip(n / 256, w - 1);
      var s := LE(n, w);
      DigitOfByte(n % 256);
      assert s[1..] == LE(n / 256, w - 1);
    }
  }

  /** The digits of n, the lowest at the lowest address. */
  lemma {:induction false} LEAt(n: nat, w: nat, i: nat)
    requires i < w
    ensures LE(n, w)[i] == ToByte(n / Pow256(i) % 256)
  {
    if i > 0 {
      var p := Pow256(i - 1);
      LEAt(n / 256, w - 1, i - 1);
      DivideTwice(n, 256, p);
      assert Pow256(i) == 256 * p;
      assert LE(n, w)[i] == LE(n / 256, w - 1)[i - 1];
    } else {
      assert n / Pow256(0) == n;
    }
  }

  lemma {:induction false} LESplit(n: nat, q: nat, r: nat, v: nat, w: nat)
    requires r < Pow256(v) && n == q * Pow256(v) + r
    ensures LE(n, v + w) == LE(r, v) + LE(q, w)
  {
    if v > 0 {
      DropByte(n, q, r, v);
      hide Pow256, LE;
      LESplit(n / 256, q, r / 256, v - 1, w);
      LEStep(n, v + w);
      LEStep(r, v);
      var d := [ToByte(n % 256)];
      assert d + (LE(r / 256, v - 1) + LE(q, w)) == (d + LE(r / 256, v - 1)) + LE(q, w);
    }
  }

  lemma LEStep(n: nat, w: nat)
    requires w > 0
    ensures LE(n, w) == [ToByte(n % 256)] + LE(n / 256, w - 1)
  {
  }

  lemma DropByte(n: nat, q: nat, r: nat, v: nat)
    requires v > 0 && r < Pow256(v) && n == q * Pow256(v) + r
    ensures r / 256 < Pow256(v - 1) && n / 256 == q * Pow256(v - 1) + r / 256 && n % 256 == r % 256
  {
    var p := Pow256(v - 1);
    assert Pow256(v) == 256 * p;
    hide Pow256;
    MulAssoc(q, 256, p);
    DivModUnique(n, 256, q * p + r / 256, r % 256);
  }

  lemma {:induction false} LEOfRead(s: seq<byte>)
    ensures LE(FromLE(s), |s|) == s
  {
    if s != [] {
      var d, n := Digit(s[0]), FromLE(s[1..]);
      hide ToByte, Digit;
      LEOfRead(s[1..]);
      ByteOfDigit(s[0]);
      DivModUnique(FromLE(s), 256, n, d);
      assert s == [s[0]] + s[1..];
    }
  }

  lemma Pow256Values()
    ensures Pow256(4) == TWO32 && Pow256(8) == TWO64
  {
    assert Pow256(2) == 0x10000 && Pow256(4) == TWO32;
    assert Pow256(6) == 0x10000 * TWO32;
  }

  function Zeros(n: nat): (z: seq<byte>)
    ensures |z| == n && forall i :: 0 <= i < n ==> z[i] == 0
  {
    seq(n, _ => 0 as byte)
  }

  /** The bytes `[a, a + n)` of a buffer. */
  function Load(mem: seq<byte>, a: nat, n: nat): (s: seq<byte>)
    requires a + n <= |mem|
    ensures |s| == n
  {
    mem[a..a + n]
  }

  /** The buffer after the bytes `bs` are copied to offset `a`. */
  function Store(mem: seq<byte>, a: nat, bs: seq<byte>): (r: seq<byte>)
    requires a + |bs| <= |mem|
    ensures |r| == |mem|
    ensures Load(r, a, |bs|) == bs
    ensures forall i :: 0 <= i < |mem| && !(a <= i < a + |bs|) ==> r[i] == mem[i]
  {
    mem[..a] + bs + mem[a + |bs|..]
  }

  /** A copy leaves every range it does not touch as it was. */
  lemma StoreFrame(mem: seq<byte>, a: nat, bs: seq<byte>, b: nat, n: nat)
    requires a + |bs| <= |mem| && b + n <= |mem|
    requires b + n <= a || a + |bs| <= b
    ensures Load(Store(mem, a, bs), b, n) == Load(mem, b, n)
  {
    var r := Store(mem, a, bs);
    forall i | 0 <= i < n ensures Load(r, b, n)[i] == Load(mem, b, n)[i] {
      assert r[b + i] == mem[b + i];
    }
  }

  /** Two adjacent copies are one. */
  lemma StoreStore(mem: seq<byte>, a: nat, x: seq<byte>, y: seq<byte>)
    requires a + |x| + |y| <= |mem|
    ensures Store(Store(mem, a, x), a + |x|, y) == Store(mem, a, x + y)
  {
    var first := Store(mem, a, x);
    assert first[..a + |x|] == mem[..a] + x;
    assert first[a + |x| + |y|..] == mem[a + |x| + |y|..];
    assert mem[..a] + x + y == mem[..a] + (x + y);
  }

  lemma StoreNothing(mem: seq<byte>, a: nat)
    requires a <= |mem|
    ensures Store(mem, a, []) == mem
  {
  }

  lemma StoreOneMore(mem: seq<byte>, a: nat, bs: seq<byte>, i: nat)
    requires a + |bs| <= |mem| && i < |bs|
    ensures Store(mem, a, bs[..i + 1]) == Store(mem, a, bs[..i])[a + i := bs[i]]
  {
  }

  /** memcpy to offset `at` of a buffer. */
  method Put(buffer: array<byte>, at: nat, bs: seq<byte>)
    requires at + |bs| <= buffer.Length
    modifies buffer
    ensures buffer[..] == Store(old(buffer[..]), at, bs)
  {
    hide Store;
    ghost var before := buffer[..];
    StoreNothing(before, at);
    for i := 0 to |bs|
      invariant buffer[..] == Store(before, at, bs[..i])
    {
      StoreOneMore(before, at, bs, i);
      buffer[at + i] := bs[i];
    }
    assert bs[..|bs|] == bs;
  }

  function LoadU64(mem: seq<byte>, a: nat): (v: nat)
    requires a + 8 <= |mem|
    ensures v < TWO64
  {
    Pow256Values();
    FromLE(Load(mem, a, 8))
  }

  lemma LoadU64Frame(mem: seq<byte>, a: nat, bs: seq<byte>, b: nat)
    requires a + |bs| <= |mem| && b + 8 <= |mem|
    requires b + 8 <= a || a + |bs| <= b
    ensures LoadU64(Store(mem, a, bs), b) == LoadU64(mem, b)
  {
    StoreFrame(mem, a, bs, b, 8);
  }

  lemma LoadStoredU64(mem: seq<byte>, a: nat, v: nat)
    requires a + 8 <= |mem| && v < TWO64
    ensures LoadU64(Store(mem, a, LE(v, 8)), a) == v
  {
    Pow256Values();
    LERoundTrip(v, 8);
  }

  /** A 32-bit word in memory order. */
  function WordLE(w: bv32): (s: seq<byte>)
    ensures |s| == 4
  {
    [(w & 0xFF) as byte, ((w >> 8) & 0xFF) as byte, ((w >> 16) & 0xFF) as byte, ((w >> 24) & 0xFF) as byte]
  }

  function WordFromLE(s: seq<byte>): bv32
    requires |s| == 4
  {
    (s[0] as bv32) | ((s[1] as bv32) << 8) | ((s[2] as bv32) << 16) | ((s[3] as bv32) << 24)
  }

  lemma WordRoundTrip(w: bv32)
    ensures WordFromLE(WordLE(w)) == w
  {
  }
}
