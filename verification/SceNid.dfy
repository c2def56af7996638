/** The streaming SHA-256 context, the legacy NID and the hexadecimal form of a NID. */
module SceNid {
  import opened Arith
  import opened Bytes
  import opened Octets
  import opened Options
  import opened Bits
  import opened Sha256

  class Sha256Ctx {
    const data: array<byte>
    const state: array<Word>
    var datalen: nat
    var bitlen: nat

    /** Everything hashed so far. */
    ghost var absorbed: seq<byte>

    ghost function Whole(): (n: nat)
      reads this
      ensures n <= |absorbed| && n % 64 == 0
    {
      |absorbed| - |absorbed| % 64
    }

    ghost predicate Valid()
      reads this, data, state
    {
      && data.Length == 64 && state.Length == 8
      && datalen == |absorbed| % 64
      && data[..datalen] == absorbed[Whole()..]
      && state[..] == HashBlocks(absorbed[..Whole()])
      && bitlen == 8 * Whole() % TWO64
    }

    constructor ()
      ensures Valid() && absorbed == [] && fresh(data) && fresh(state)
    {
      hide *;
      HashOfNothing();
      data := new byte[64];
      state := new Word[8](i requires 0 <= i < 8 => H0[i]);
      datalen, bitlen, absorbed := 0, 0, [];
      new;
      assert state[..] == H0;
      NothingAbsorbed();
    }

    lemma NothingAbsorbed()
      requires data.Length == 64 && state.Length == 8 && state[..] == HashBlocks([])
      requires absorbed == [] && datalen == 0 && bitlen == 0
      ensures Valid()
    {
      hide HashBlocks;
      assert Whole() == 0 && absorbed[..0] == [] && data[..0] == [];
    }

    /** Valid() without the definition of the hash. */
    lemma Unpack()
      requires Valid()
      ensures data.Length == 64 && state.Length == 8 && datalen < 64
      ensures Whole() + datalen == |absorbed| && data[..datalen] == absorbed[Whole()..]
      ensures state[..] == HashBlocks(absorbed[..Whole()])
      ensures Whole() == |absorbed| - |absorbed| % 64 && bitlen == 8 * Whole() % TWO64
    {
      hide HashBlocks;
    }

    method Transform(chunk: seq<byte>)
      requires |chunk| == 64 && state.Length == 8
      modifies state
      ensures state[..] == Compress(old(state[..]), chunk)
    {
      hide *;
      var w := ExpandBlock(chunk);
      var v := Vars(state[0], state[1], state[2], state[3], state[4], state[5], state[6], state[7]);
      v := RunRounds(v, chunk, w);
      CompressStep(state[..], chunk);
      AddToState(v);
    }

    /** The eight additions at the end of a block. */
    method AddToState(v: Vars)
      requires state.Length == 8
      modifies state
      ensures state[..] == old([Add(state[0], v.a), Add(state[1], v.b), Add(state[2], v.c), Add(state[3], v.d),
                                Add(state[4], v.e), Add(state[5], v.f), Add(state[6], v.g), Add(state[7], v.h)])
    {
      hide *;
      state[0], state[1] := Add(state[0], v.a), Add(state[1], v.b);
      state[2], state[3] := Add(state[2], v.c), Add(state[3], v.d);
      state[4], state[5] := Add(state[4], v.e), Add(state[5], v.f);
      state[6], state[7] := Add(state[6], v.g), Add(state[7], v.h);
    }

    method Update(chunk: seq<byte>)
      requires Valid()
      modifies this, data, state
      ensures Valid() && absorbed == old(absorbed) + chunk
    {
      hide *;
      for i := 0 to |chunk|
        invariant Valid() && absorbed == old(absorbed) + chunk[..i]
      {
        Append(chunk[i]);
        assert chunk[..i + 1] == chunk[..i] + [chunk[i]];
      }
      assert chunk[..|chunk|] == chunk;
    }

    /** One iteration of sha256Update. */
    method Append(b: byte)
      requires Valid()
      modifies this, data, state
      ensures Valid() && absorbed == old(absorbed) + [b]
    {
      hide HashBlocks, Compress, Valid, Whole;
      Unpack();
      ghost var m, n := absorbed, datalen;
      LastBytes(m, n);
      AppendFacts(m, b);
      data[datalen] := b;
      datalen := datalen + 1;
      absorbed := m + [b];
      assert data[..datalen] == m[|m| - n..] + [b];
      if datalen == 64 {
        assert data[..] == data[..datalen];
        HashBlocksSnoc(m[..|m| - n], data[..]);
        Transform(data[..]);
        BlockBits(m, n);
        bitlen := (bitlen + 512) % TWO64;
        datalen := 0;
        assert absorbed[..|absorbed|] == absorbed;
      }
      Pack();
    }

    /** Valid() from its parts. */
    lemma Pack()
      requires data.Length == 64 && state.Length == 8 && datalen == |absorbed| % 64
      requires var whole := |absorbed| - datalen;
               && data[..datalen] == absorbed[whole..] && state[..] == HashBlocks(absorbed[..whole])
               && bitlen == 8 * whole % TWO64
      ensures Valid()
    {
      hide HashBlocks;
    }

    /** The digest of everything absorbed, for messages of less than 2^61 bytes. */
    method Final() returns (out: seq<byte>)
      requires Valid() && |absorbed| < 0x2000_0000_0000_0000
      modifies this, data, state
      ensures out == Digest(old(absorbed))
    {
      hide HashBlocks, Compress, WordsBytes, Pad, Digest, Zeros, BE64, Valid, Whole;
      Unpack();
      ghost var m, n := absorbed, datalen;
      LastBytes(m, n);
      ghost var hashed := PadLastBlock();
      bitlen := (bitlen + datalen * 8) % TWO64;
      assert bitlen == 8 * |m| by { TotalBits(m, n); }
      StoreLength();
      assert data[..] == data[..56] + BE64(8 * |m|);
      LastBlockIs(m, hashed, data[..]);
      DigestIs(m, hashed, data[..]);
      Transform(data[..]);
      out := EmitState();
    }

    /** The 0x80 marker and the zeros, spilling into an extra block when the length would not fit. `hashed` is the part
        of the padded message compressed so far. */
    method PadLastBlock() returns (ghost hashed: seq<byte>)
      requires Valid()
      modifies data, state
      ensures |hashed| % 64 == 0 && state[..] == HashBlocks(hashed)
      ensures var tail := absorbed[Whole()..];
              if datalen < 56 then hashed == absorbed[..Whole()] && data[..56] == tail + [0x80] + Zeros(55 - datalen)
              else hashed == absorbed[..Whole()] + (tail + [0x80] + Zeros(63 - datalen)) && data[..56] == Zeros(56)
    {
      hide *;
      Unpack();
      hashed := absorbed[..Whole()];
      var i := datalen;
      data[i] := 0x80;
      i := i + 1;
      assert data[..i] == absorbed[Whole()..] + [0x80];
      if datalen < 56 {
        FillZeros(i, 56);
      } else {
        FillZeros(i, 64);
        assert data[..] == absorbed[Whole()..] + [0x80] + Zeros(63 - datalen);
        HashBlocksSnoc(hashed, data[..]);
        hashed := hashed + data[..];
        Transform(data[..]);
        FillZeros(0, 56);
      }
    }

    /** data[from..to] := 0. */
    method FillZeros(from: nat, to: nat)
      requires from <= to <= data.Length
      modifies data
      ensures data[..] == old(data[..from]) + Zeros(to - from) + old(data[to..])
    {
      var i := from;
      while i < to
        invariant from <= i <= to
        invariant data[..] == old(data[..from]) + Zeros(i - from) + old(data[i..])
      {
        data[i] := 0;
        i := i + 1;
      }
    }

    method StoreLength()
      requires data.Length == 64 && bitlen < TWO64
      modifies data
      ensures data[..] == old(data[..56]) + BE64(bitlen)
    {
      hide DigitBE;
      for j := 0 to 8
        invariant data[..56 + j] == old(data[..56]) + BE64(bitlen)[..j]
      {
        data[56 + j] := DigitBE(bitlen, j);
      }
      assert data[..] == data[..64];
    }

    method EmitState() returns (out: seq<byte>)
      requires state.Length == 8
      ensures out == WordsBytes(state[..])
    {
      hide WordBytes;
      out := [];
      for j := 0 to 8
        invariant out == WordsBytes(state[..j])
      {
        assert state[..j + 1][..j] == state[..j];
        out := out + WordBytes(state[j]);
      }
      assert state[..] == state[..8];
    }
  }

  lemma HashOfNothing()
    ensures |H0| == 8 && HashBlocks([]) == H0
  {
  }

  lemma AppendFacts(m: seq<byte>, b: byte)
    ensures var m' := m + [b]; var whole := |m| - |m| % 64;
            if |m| % 64 == 63 then |m'| % 64 == 0 && |m'| == whole + 64 && m' == m[..whole] + (m[whole..] + [b])
            else |m'| % 64 == |m| % 64 + 1 && m'[..whole] == m[..whole] && m'[whole..] == m[whole..] + [b]
  {
  }

  /** The padded message, cut where Final hashes its blocks. */
  lemma PadShape(m: seq<byte>)
    ensures var n := |m| % 64; var whole := |m| - n; var tail := m[whole..];
            if n < 56 then Pad(m) == m[..whole] + (tail + [0x80] + Zeros(55 - n) + BE64(8 * |m|))
            else Pad(m) == m[..whole] + (tail + [0x80] + Zeros(63 - n)) + (Zeros(56) + BE64(8 * |m|))
  {
    var n := |m| % 64;
    var whole := |m| - n;
    assert m == m[..whole] + m[whole..];
    if n >= 56 {
      assert Zeros(119 - n) == Zeros(63 - n) + Zeros(56);
    }
  }

  lemma LastBytes(m: seq<byte>, n: nat)
    requires n < 64 && |m| - |m| % 64 + n == |m|
    ensures n == |m| % 64
  {
  }

  lemma BlockBits(m: seq<byte>, n: nat)
    requires n == 63 == |m| % 64
    ensures (8 * (|m| - n) % TWO64 + 512) % TWO64 == 8 * (|m| + 1) % TWO64
  {
  }

  lemma TotalBits(m: seq<byte>, n: nat)
    requires n == |m| % 64 && |m| < 0x2000_0000_0000_0000
    ensures (8 * (|m| - n) % TWO64 + n * 8) % TWO64 == 8 * |m| < TWO64
  {
    SmallMod(8 * (|m| - n), TWO64);
    SmallMod(8 * |m|, TWO64);
  }

  /** The padded message from what Final has hashed and its last block. */
  lemma LastBlockIs(m: seq<byte>, hashed: seq<byte>, block: seq<byte>)
    requires |block| == 64 && block == block[..56] + BE64(8 * |m|)
    requires var n := |m| % 64; var whole := |m| - n; var tail := m[whole..];
             if n < 56 then hashed == m[..whole] && block[..56] == tail + [0x80] + Zeros(55 - n)
             else hashed == m[..whole] + (tail + [0x80] + Zeros(63 - n)) && block[..56] == Zeros(56)
    ensures Pad(m) == hashed + block
  {
    hide Pad;
    PadShape(m);
  }

  lemma DigestIs(m: seq<byte>, hashed: seq<byte>, block: seq<byte>)
    requires Pad(m) == hashed + block && |hashed| % 64 == 0 && |block| == 64
    ensures Digest(m) == WordsBytes(Compress(HashBlocks(hashed), block))
  {
    hide HashBlocks, Compress, WordsBytes, Pad;
    HashBlocksSnoc(hashed, block);
  }

  lemma CompressStep(h: seq<Word>, block: seq<byte>)
    requires |h| == 8 && |block| == 64
    ensures var v := Rounds(Vars(h[0], h[1], h[2], h[3], h[4], h[5], h[6], h[7]), block, 64);
            Compress(h, block) == [Add(h[0], v.a), Add(h[1], v.b), Add(h[2], v.c), Add(h[3], v.d),
                                   Add(h[4], v.e), Add(h[5], v.f), Add(h[6], v.g), Add(h[7], v.h)]
  {
    hide Rounds, Add;
  }

  /** The first two loops of sha256Transform: the message schedule. */
  method ExpandBlock(chunk: seq<byte>) returns (w: array<Word>)
    requires |chunk| == 64
    ensures fresh(w) && w.Length == 64 && forall t :: 0 <= t < 64 ==> w[t] == Schedule(chunk, t)
  {
    hide *;
    w := new Word[64];
    for i := 0 to 16
      invariant forall t :: 0 <= t < i ==> w[t] == Schedule(chunk, t)
    {
      ScheduleStart(chunk, i);
      w[i] := ((chunk[i * 4] as Word) << 24) | ((chunk[i * 4 + 1] as Word) << 16)
              | ((chunk[i * 4 + 2] as Word) << 8) | (chunk[i * 4 + 3] as Word);
    }
    for i := 16 to 64
      invariant forall t :: 0 <= t < i ==> w[t] == Schedule(chunk, t)
    {
      var s0 := SmallSigma0(w[i - 15]);
      var s1 := SmallSigma1(w[i - 2]);
      ScheduleStep(chunk, i);
      w[i] := Add(Add(Add(w[i - 16], s0), w[i - 7]), s1);
    }
  }

  lemma ScheduleStart(chunk: seq<byte>, i: nat)
    requires |chunk| == 64 && i < 16
    ensures Schedule(chunk, i) == ((chunk[i * 4] as Word) << 24) | ((chunk[i * 4 + 1] as Word) << 16)
                                  | ((chunk[i * 4 + 2] as Word) << 8) | (chunk[i * 4 + 3] as Word)
  {
  }

  lemma ScheduleStep(chunk: seq<byte>, t: nat)
    requires |chunk| == 64 && 16 <= t < 64
    ensures Schedule(chunk, t) ==
              Add(Add(Add(Schedule(chunk, t - 16), SmallSigma0(Schedule(chunk, t - 15))), Schedule(chunk, t - 7)),
                  SmallSigma1(Schedule(chunk, t - 2)))
  {
    hide SmallSigma0, SmallSigma1, Add, BlockWord;
  }

  /** The third loop: 64 rounds over the working variables. */
  method RunRounds(start: Vars, chunk: seq<byte>, w: array<Word>) returns (v: Vars)
    requires |chunk| == 64 && w.Length == 64 && forall t :: 0 <= t < 64 ==> w[t] == Schedule(chunk, t)
    ensures v == Rounds(start, chunk, 64)
  {
    hide *;
    RoundsStart(start, chunk);
    var Vars(a, b, c, d, e, f, g, h) := start;
    for i := 0 to 64
      invariant Vars(a, b, c, d, e, f, g, h) == Rounds(start, chunk, i)
    {
      RoundsStep(start, chunk, i);
      RoundInline(Vars(a, b, c, d, e, f, g, h), K[i], w[i]);
      var S1 := BigSigma1(e);
      var ch := Ch(e, f, g);
      var t1 := Add(Add(Add(Add(h, S1), ch), K[i]), w[i]);
      var S0 := BigSigma0(a);
      var maj := Maj(a, b, c);
      var t2 := Add(S0, maj);
      h := g;
      g := f;
      f := e;
      e := Add(d, t1);
      d := c;
      c := b;
      b := a;
      a := Add(t1, t2);
    }
    v := Vars(a, b, c, d, e, f, g, h);
  }

  lemma RoundsStart(start: Vars, chunk: seq<byte>)
    requires |chunk| == 64
    ensures Rounds(start, chunk, 0) == start
  {
  }

  lemma RoundsStep(start: Vars, chunk: seq<byte>, i: nat)
    requires |chunk| == 64 && i < 64
    ensures |K| == 64 && Rounds(start, chunk, i + 1) == Round(Rounds(start, chunk, i), K[i], Schedule(chunk, i))
  {
    hide Round, Schedule, Add;
  }

  lemma RoundInline(v: Vars, k: Word, w: Word)
    ensures var Vars(a, b, c, d, e, f, g, h) := v;
            var t1 := Add(Add(Add(Add(h, BigSigma1(e)), Ch(e, f, g)), k), w);
            var t2 := Add(BigSigma0(a), Maj(a, b, c));
            Round(v, k, w) == Vars(Add(t1, t2), a, b, c, Add(d, t1), e, f, g)
  {
    hide BigSigma0, BigSigma1, Ch, Maj, Add;
  }

  /** However a message is cut into updates, the digest is that of the whole message. */
  method HashPieces(pieces: seq<seq<byte>>) returns (out: seq<byte>)
    requires |Flatten(pieces)| < 0x2000_0000_0000_0000
    ensures out == Digest(Flatten(pieces))
  {
    hide Digest, HashBlocks;
    var ctx := new Sha256Ctx();
    for i := 0 to |pieces|
      invariant ctx.Valid() && ctx.absorbed == Flatten(pieces[..i])
      invariant fresh(ctx) && fresh(ctx.data) && fresh(ctx.state)
    {
      assert pieces[..i + 1][..i] == pieces[..i];
      ctx.Update(pieces[i]);
    }
    assert pieces[..|pieces|] == pieces;
    out := ctx.Final();
  }

  function Flatten(pieces: seq<seq<byte>>): seq<byte> {
    if pieces == [] then [] else Flatten(pieces[..|pieces| - 1]) + pieces[|pieces| - 1]
  }

  // ---- computeLegacy ----

  /** The first 8 digest bytes, OR-ed into a 64-bit word from the low end. */
  method ComputeLegacy(name: seq<byte>) returns (v: nat)
    requires |name| < 0x2000_0000_0000_0000
    ensures v == FromLE(Digest(name)[..8])
  {
    hide *;
    LEOfNothing();
    var ctx := new Sha256Ctx();
    ctx.Update(name);
    var digest := ctx.Final();
    assert [] + name == name;
    v := 0;
    for i := 0 to 8
      invariant v == FromLE(digest[..i])
    {
      assert digest[..i + 1] == digest[..i] + [digest[i]];
      OrNextByte(digest[..i], digest[i]);
      v := BitOr(v, digest[i] as int * Pow256(i), 64);
    }
  }

  lemma LEOfNothing()
    ensures FromLE([]) == 0
  {
  }

  /** OR-ing a byte in above the bytes read so far. */
  lemma OrNextByte(s: seq<byte>, b: byte)
    requires |s| < 8
    ensures BitOr(FromLE(s), b as int * Pow256(|s|), 64) == FromLE(s + [b])
  {
    hide BitOr;
    var i := |s|;
    FromLESnoc(s, b);
    Pow256IsPow2(i);
    Pow256Monotone(i + 1, 8);
    Pow256Values();
    Pow2Of64();
    OrDisjoint(FromLE(s), b as int, 8 * i, 64);
  }

  lemma {:induction false} FromLESnoc(s: seq<byte>, b: byte)
    ensures FromLE(s + [b]) == FromLE(s) + Digit(b) * Pow256(|s|)
    ensures FromLE(s + [b]) < Pow256(|s| + 1)
  {
    hide Digit;
    if s == [] {
      assert s + [b] == [b];
    } else {
      FromLESnoc(s[1..], b);
      assert (s + [b])[1..] == s[1..] + [b];
      assert FromLE(s + [b]) == Digit(s[0]) + 256 * FromLE(s[1..] + [b]);
      MulAssoc(256, Digit(b), Pow256(|s| - 1));
    }
    SnocBound(FromLE(s), Digit(b), Pow256(|s|));
  }

  lemma SnocBound(n: nat, d: nat, p: nat)
    requires n < p && d <= 255
    ensures n + d * p < 256 * p
  {
    assert d * p <= 255 * p;
  }

  lemma {:induction false} Pow256IsPow2(i: nat)
    ensures Pow256(i) == Pow2(8 * i)
  {
    if i > 0 {
      Pow256IsPow2(i - 1);
      Pow2Add(8, 8 * (i - 1));
      assert Pow2(4) == 16 && Pow2(8) == 256;
    }
  }

  lemma {:induction false} Pow256Monotone(i: nat, j: nat)
    requires i <= j
    ensures Pow256(i) <= Pow256(j)
  {
    if i < j {
      Pow256Monotone(i, j - 1);
    }
  }

  // ---- hexadecimal ----

  function HexDigit(d: nat): (c: char)
    requires d < 16
  {
    "0123456789abcdef"[d]
  }

  function DigitValue(c: char): (v: Option<nat>)
    ensures v.Some? ==> v.value < 16
  {
    if '0' <= c <= '9' then Some(c as nat - '0' as nat)
    else if 'a' <= c <= 'f' then Some(c as nat - 'a' as nat + 10)
    else if 'A' <= c <= 'F' then Some(c as nat - 'A' as nat + 10)
    else None
  }

  predicate IsHex(s: string) {
    forall i :: 0 <= i < |s| ==> DigitValue(s[i]).Some?
  }

  /** snprintf's %0<width>llx. */
  function HexOf(n: nat, width: nat): (s: string)
    ensures |s| == width
  {
    if width == 0 then "" else HexOf(n / 16, width - 1) + [HexDigit(n % 16)]
  }

  function ToHex(nid: nat): string
    requires nid < TWO64
  {
    HexOf(nid, 16)
  }

  /** The number a string of hex digits denotes. */
  function HexValue(s: string): nat
    requires IsHex(s)
  {
    if s == "" then 0 else 16 * HexValue(s[..|s| - 1]) + DigitValue(s[|s| - 1]).value
  }

  function Pow16(w: nat): (p: nat)
    ensures p > 0
  {
    if w == 0 then 1 else 16 * Pow16(w - 1)
  }

  lemma {:induction false} HexValueBound(s: string)
    requires IsHex(s)
    ensures HexValue(s) < Pow16(|s|)
  {
    if s != "" {
      HexValueBound(s[..|s| - 1]);
    }
  }

  lemma {:induction false} Pow16Monotone(i: nat, j: nat)
    requires i <= j
    ensures Pow16(i) <= Pow16(j)
  {
    if i < j {
      Pow16Monotone(i, j - 1);
    }
  }

  lemma Pow16Of16()
    ensures Pow16(16) == TWO64
  {
    assert Pow16(4) == 0x1_0000;
    assert Pow16(8) == 0x1_0000_0000 by { assert Pow16(6) == 0x100_0000; }
    assert Pow16(12) == 0x1_0000_0000_0000 by { assert Pow16(10) == 0x100_0000_0000; }
    assert Pow16(16) == TWO64 by { assert Pow16(14) == 0x100_0000_0000_0000; }
  }

  /** Exactly the 16-digit strings parse, to the number they denote: shifting left by 4 and OR-ing a digit in. */
  method FromHex(hex: string) returns (ok: bool, v: nat)
    ensures ok <==> |hex| == 16 && IsHex(hex)
    ensures ok ==> v == HexValue(hex) && v < TWO64
  {
    v := 0;
    if |hex| != 16 {
      return false, 0;
    }
    for i := 0 to 16
      invariant IsHex(hex[..i]) && v == HexValue(hex[..i])
    {
      var d := DigitValue(hex[i]);
      if d.None? {
        return false, 0;
      }
      assert hex[..i + 1][..i] == hex[..i];
      assert hex[..i + 1] == hex[..i] + [hex[i]];
      HexStep(hex[..i], d.value);
      v := BitOr(d.value, (v * 16) % TWO64, 64);
    }
    assert hex[..16] == hex;
    HexValueBound(hex);
    Pow16Of16();
    ok := true;
  }

  lemma HexShiftFits(s: string)
    requires IsHex(s) && |s| < 16
    ensures HexValue(s) * 16 + 15 < TWO64 && (HexValue(s) * 16) % TWO64 == HexValue(s) * 16
  {
    HexValueBound(s);
    Pow16Monotone(|s| + 1, 16);
    Pow16Of16();
    hide HexValue;
    SmallMod(HexValue(s) * 16, TWO64);
  }

  lemma HexStep(s: string, d: nat)
    requires IsHex(s) && |s| < 16 && d < 16
    ensures BitOr(d, (HexValue(s) * 16) % TWO64, 64) == 16 * HexValue(s) + d
  {
    hide BitOr;
    HexShiftFits(s);
    Pow2Of64();
    assert Pow2(4) == 16;
    OrDisjoint(d, HexValue(s), 4, 64);
  }

  lemma {:induction false} HexRoundTrip(n: nat, width: nat)
    requires n < Pow16(width)
    ensures IsHex(HexOf(n, width)) && HexValue(HexOf(n, width)) == n
  {
    if width > 0 {
      HexRoundTrip(n / 16, width - 1);
      DigitRoundTrip(n % 16);
      assert HexOf(n, width)[..width - 1] == HexOf(n / 16, width - 1);
    }
  }

  lemma DigitRoundTrip(d: nat)
    requires d < 16
    ensures DigitValue(HexDigit(d)) == Some(d)
  {
  }

  /** Digits of both cases, and nothing else. */
  lemma DigitValues(c: char)
    ensures '0' <= c <= '9' ==> DigitValue(c) == Some(c as int - 48)
    ensures 'a' <= c <= 'f' ==> DigitValue(c) == Some(c as int - 87)
    ensures 'A' <= c <= 'F' ==> DigitValue(c) == Some(c as int - 55)
    ensures !('0' <= c <= '9' || 'a' <= c <= 'f' || 'A' <= c <= 'F') ==> DigitValue(c) == None
  {
  }

  /** Only the capital letters change. */
  lemma LowerIs(s: string, i: nat)
    requires IsHex(s) && i < |s|
    ensures 'A' <= s[i] <= 'F' ==> Lower(s)[i] as int == s[i] as int + 32
    ensures !('A' <= s[i] <= 'F') ==> Lower(s)[i] == s[i]
  {
  }

  /** Formatting what was parsed gives the lower-case form back. */
  lemma {:induction false} HexOfValue(s: string)
    requires IsHex(s)
    ensures HexOf(HexValue(s), |s|) == Lower(s)
  {
    if s != "" {
      HexOfValue(s[..|s| - 1]);
      var d := DigitValue(s[|s| - 1]).value;
      assert HexValue(s) / 16 == HexValue(s[..|s| - 1]) && HexValue(s) % 16 == d;
      assert Lower(s) == Lower(s[..|s| - 1]) + [HexDigit(d)];
    }
  }

  function Lower(s: string): (l: string)
    requires IsHex(s)
    ensures |l| == |s|
  {
    seq(|s|, i requires 0 <= i < |s| => HexDigit(DigitValue(s[i]).value))
  }

  /** fromHex undoes toHex for every NID, and toHex undoes fromHex up to the case of the digits. */
  lemma HexIsInverse(nid: nat, s: string)
    requires nid < TWO64
    ensures |ToHex(nid)| == 16 && IsHex(ToHex(nid)) && HexValue(ToHex(nid)) == nid
    ensures |s| == 16 && IsHex(s) ==> HexValue(s) < TWO64 && ToHex(HexValue(s)) == Lower(s)
  {
    Pow16Of16();
    HexRoundTrip(nid, 16);
    if |s| == 16 && IsHex(s) {
      HexValueBound(s);
      HexOfValue(s);
    }
  }
}
