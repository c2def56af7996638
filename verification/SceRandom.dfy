/** The per-thread ChaCha20 generator behind sceRandomGetRandomNumber. The kernel's random bytes are parameters. */
module SceRandom {
  import opened Bytes
  import opened ChaCha20

  const RESEED_AFTER: nat := 0x10_0000

  /** What getrandom delivers: 40 bytes, or nothing. */
  datatype Entropy = NoEntropy | Seed(bytes: seq<byte>)

  predicate Delivered(e: Entropy) { e.Seed? && |e.bytes| == 40 }

  /** memcpy of four bytes to a word on a little-endian host. */
  function LoadWord(b: seq<byte>): Word
    requires |b| == 4
  {
    Pow256Values();
    FromLE(b)
  }

  function SeedKey(b: seq<byte>): Key
    requires |b| == 40
  {
    seq(8, i requires 0 <= i < 8 => LoadWord(b[4 * i..4 * i + 4]))
  }

  function SeedNonce(b: seq<byte>): Nonce
    requires |b| == 40
  {
    seq(2, i requires 0 <= i < 2 => LoadWord(b[32 + 4 * i..36 + 4 * i]))
  }

  /** A seeded stream starts from "expand 32-byte k", the first 32 seed bytes, the counter and the last 8 seed bytes. */
  lemma SeedLayout(b: seq<byte>, c: nat)
    requires |b| == 40 && c < TWO64
    ensures Serialize(InitialState(SeedKey(b), c, SeedNonce(b))) == EXPAND_32_BYTE_K + b[..32] + LE(c, 8) + b[32..]
  {
    hide FromLE, Serialize, LE, InitialState;
    StateBytes(SeedKey(b), c, SeedNonce(b));
    forall i | 0 <= i < 8 ensures SeedKey(b)[i] == FromLE(b[..32][4 * i..4 * i + 4]) {
      assert b[..32][4 * i..4 * i + 4] == b[4 * i..4 * i + 4];
    }
    SerializeRead(SeedKey(b), b[..32]);
    forall i | 0 <= i < 2 ensures SeedNonce(b)[i] == FromLE(b[32..][4 * i..4 * i + 4]) {
      assert b[32..][4 * i..4 * i + 4] == b[32 + 4 * i..36 + 4 * i];
    }
    SerializeRead(SeedNonce(b), b[32..]);
  }

  /** The quarter round in place on four words of the working state. */
  method Qr(x: array<Word>, l: Lane)
    requires x.Length == 16 && l.Ok()
    modifies x
    ensures x[..] == QuarterRoundAt(old(x[..]), l)
  {
    hide Add, Xor, Rotl;
    var a, b, c, d := l.a, l.b, l.c, l.d;
    x[a] := Add(x[a], x[b]); x[d] := Xor(x[d], x[a]); x[d] := Rotl(x[d], 16);
    x[c] := Add(x[c], x[d]); x[b] := Xor(x[b], x[c]); x[b] := Rotl(x[b], 12);
    x[a] := Add(x[a], x[b]); x[d] := Xor(x[d], x[a]); x[d] := Rotl(x[d], 8);
    x[c] := Add(x[c], x[d]); x[b] := Xor(x[b], x[c]); x[b] := Rotl(x[b], 7);
    assert Pick(x[..], l) == QuarterRound(Pick(old(x[..]), l));
  }

  method ChaCha20Block(state: State) returns (out: State)
    ensures out == AddStates(DoubleRounds(state, 10), state)
  {
    hide QuarterRoundAt, Add;
    var x := new Word[16](i requires 0 <= i < 16 => state[i]);
    assert x[..] == state;
    for i := 0 to 10
      invariant x[..] == DoubleRounds(state, i)
    {
      ghost var s := x[..];
      Qr(x, Lane(0, 4, 8, 12));
      Qr(x, Lane(1, 5, 9, 13));
      Qr(x, Lane(2, 6, 10, 14));
      Qr(x, Lane(3, 7, 11, 15));
      Qr(x, Lane(0, 5, 10, 15));
      Qr(x, Lane(1, 6, 11, 12));
      Qr(x, Lane(2, 7, 8, 13));
      Qr(x, Lane(3, 4, 9, 14));
      EightLanes(s);
    }
    var sums: seq<Word> := [];
    for i := 0 to 16
      invariant |sums| == i && forall j :: 0 <= j < i ==> sums[j] == Add(x[j], state[j])
    {
      sums := sums + [Add(x[i], state[i])];
    }
    out := sums;
  }

  lemma EightLanes(s: State)
    ensures
      var t := QuarterRoundAt(QuarterRoundAt(QuarterRoundAt(QuarterRoundAt(s,
        Lane(0, 4, 8, 12)), Lane(1, 5, 9, 13)), Lane(2, 6, 10, 14)), Lane(3, 7, 11, 15));
      DoubleRound(s) == QuarterRoundAt(QuarterRoundAt(QuarterRoundAt(QuarterRoundAt(t,
        Lane(0, 5, 10, 15)), Lane(1, 6, 11, 12)), Lane(2, 7, 8, 13)), Lane(3, 4, 9, 14))
  {
    hide QuarterRoundAt;
    LanesInOrder();
    var t := Lanes(s, 4);
    assert Lanes(s, 1) == QuarterRoundAt(s, LaneAt(0));
    assert Lanes(s, 2) == QuarterRoundAt(Lanes(s, 1), LaneAt(1));
    assert Lanes(s, 3) == QuarterRoundAt(Lanes(s, 2), LaneAt(2));
    assert t == QuarterRoundAt(Lanes(s, 3), LaneAt(3));
    assert Lanes(s, 5) == QuarterRoundAt(t, LaneAt(4));
    assert Lanes(s, 6) == QuarterRoundAt(Lanes(s, 5), LaneAt(5));
    assert Lanes(s, 7) == QuarterRoundAt(Lanes(s, 6), LaneAt(6));
  }

  class Drbg {
    var key: Key
    var nonce: Nonce
    var counter: nat
    const buf: array<byte>
    var bufPos: nat
    var produced: nat
    var seeded: bool

    /** Refills since the last reseed, without the 64-bit wrap-around of `counter`. */
    ghost var blocks: nat

    /** Bytes handed out since the last reseed, without the wrap-around of `produced`. */
    ghost function Position(): (p: int)
      reads this
    {
      64 * blocks - (64 - bufPos)
    }

    ghost predicate Valid()
      reads this, buf
    {
      && buf.Length == 64 && bufPos <= 64
      && counter == blocks % TWO64
      && Position() >= 0 && produced == Position() % TWO64
      && (blocks > 0 ==> buf[..] == Block(key, (blocks - 1) % TWO64, nonce))
    }

    constructor ()
      ensures Valid() && !seeded && Position() == 0 && fresh(buf)
    {
      key, nonce := seq(8, _ => 0), seq(2, _ => 0);
      counter, bufPos, produced, seeded, blocks := 0, 64, 0, false, 0;
      buf := new byte[64];
    }

    method ReseedFromKernel(e: Entropy) returns (ok: bool)
      requires Valid()
      modifies this
      ensures Valid() && (ok <==> e.Seed? && |e.bytes| == 40) && ok == Delivered(e)
      ensures ok ==> seeded && key == SeedKey(e.bytes) && nonce == SeedNonce(e.bytes) && Position() == 0
      ensures !ok ==> unchanged(this)
    {
      hide Block;
      if !Delivered(e) {
        return false;
      }
      key, nonce := SeedKey(e.bytes), SeedNonce(e.bytes);
      counter, bufPos, produced, seeded, blocks := 0, 64, 0, true, 0;
      return true;
    }

    method Refill()
      requires Valid() && bufPos == 64
      modifies this, buf
      ensures Valid() && bufPos == 0 && blocks == old(blocks) + 1
      ensures key == old(key) && nonce == old(nonce) && seeded == old(seeded) && produced == old(produced)
    {
      hide *;
      Unpack();
      var out := ChaCha20Block(InitialState(key, counter, nonce));
      WriteWords(out);
      BlockIs(key, counter, nonce);
      counter := (counter + 1) % TWO64;
      blocks := blocks + 1;
      bufPos := 0;
      CounterStep(blocks - 1);
      Pack();
    }

    /** Valid() without the definition of Block. */
    lemma Unpack()
      requires Valid()
      ensures counter == blocks % TWO64 < TWO64 && Position() >= 0 && produced == Position() % TWO64
      ensures Position() == 64 * blocks - (64 - bufPos) && buf.Length == 64 && bufPos <= 64
      ensures blocks > 0 ==> buf[..] == Block(key, (blocks - 1) % TWO64, nonce)
    {
      hide Block;
    }

    lemma Pack()
      requires counter == blocks % TWO64 && buf.Length == 64 && bufPos <= 64
      requires 64 * blocks - (64 - bufPos) >= 0 && produced == (64 * blocks - (64 - bufPos)) % TWO64
      requires blocks > 0 ==> buf[..] == Block(key, (blocks - 1) % TWO64, nonce)
      ensures Valid() && Position() == 64 * blocks - (64 - bufPos)
    {
      hide Block;
    }

    /** memcpy of the output words to the byte buffer on a little-endian host. */
    method WriteWords(out: State)
      requires buf.Length == 64
      modifies buf
      ensures buf[..] == Serialize(out)
    {
      hide LE;
      for i := 0 to 16
        invariant buf[..4 * i] == Serialize(out[..i])
      {
        var w := LE(out[i], 4);
        buf[4 * i], buf[4 * i + 1], buf[4 * i + 2], buf[4 * i + 3] := w[0], w[1], w[2], w[3];
        assert buf[..4 * (i + 1)] == buf[..4 * i] + w;
        assert out[..i + 1][..i] == out[..i];
      }
      assert buf[..64] == buf[..] && out[..16] == out;
    }

    /** The next `n` bytes. `atStart` is what getrandom would deliver if the generator is not seeded yet, `atLimit` if
        the request crosses the reseed limit; the result of that second reseed is not looked at. */
    method FillBytes(n: nat, atStart: Entropy, atLimit: Entropy) returns (out: seq<byte>)
      requires Valid() && n < TWO64
      modifies this, buf
      ensures Valid() && |out| == n
      ensures !old(seeded) && !Delivered(atStart) ==>
                (forall i :: 0 <= i < n ==> out[i] == 0) && !seeded && Position() == old(Position())
      ensures old(seeded) || Delivered(atStart) ==>
                var produced0 := if old(seeded) then old(produced) else 0;
                var reseeds := (produced0 + n) % TWO64 > RESEED_AFTER && Delivered(atLimit);
                var start := if reseeds || !old(seeded) then 0 else old(Position());
                && seeded
                && key == (if reseeds then SeedKey(atLimit.bytes) else
                           if old(seeded) then old(key) else SeedKey(atStart.bytes))
                && nonce == (if reseeds then SeedNonce(atLimit.bytes) else
                             if old(seeded) then old(nonce) else SeedNonce(atStart.bytes))
                && start >= 0 && out == Stream(key, nonce, start, n) && Position() == start + n
    {
      hide *;
      UnpackPosition();
      if !seeded {
        var ok := ReseedFromKernel(atStart);
        if !ok {
          out := seq(n, _ => 0);
          return;
        }
        UnpackPosition();
      }
      if (produced + n) % TWO64 > RESEED_AFTER {
        var _ := ReseedFromKernel(atLimit);
      }
      out := Drain(n);
    }

    lemma UnpackPosition()
      requires Valid()
      ensures Position() >= 0 && produced == Position() % TWO64
      ensures Position() == 0 ==> produced == 0
    {
      hide Block;
    }

    /** The copy loop. */
    method Drain(size: nat) returns (out: seq<byte>)
      requires Valid()
      modifies this, buf
      ensures Valid() && key == old(key) && nonce == old(nonce) && seeded == old(seeded)
      ensures old(Position()) >= 0 && out == Stream(key, nonce, old(Position()), size)
      ensures Position() == old(Position()) + size
    {
      hide *;
      UnpackPosition();
      var n := size;
      out := [];
      StreamNothing(key, nonce, Position());
      while n > 0
        invariant Valid() && key == old(key) && nonce == old(nonce) && seeded == old(seeded)
        invariant 0 <= n <= size && Position() == old(Position()) + (size - n)
        invariant out == Stream(key, nonce, old(Position()), size - n)
      {
        var piece := TakeSome(n);
        StreamSplit(key, nonce, old(Position()), size - n, |piece|);
        out := out + piece;
        n := n - |piece|;
      }
    }

    /** One iteration of it: what is left in the buffer, refilled first when it is used up. */
    method TakeSome(n: nat) returns (piece: seq<byte>)
      requires Valid() && n > 0 && Position() >= 0
      modifies this, buf
      ensures Valid() && key == old(key) && nonce == old(nonce) && seeded == old(seeded)
      ensures 0 < |piece| <= n && piece == Stream(key, nonce, old(Position()), |piece|)
      ensures Position() == old(Position()) + |piece|
    {
      hide *;
      Unpack();
      if bufPos >= 64 {
        Refill();
        Unpack();
      }
      var avail := 64 - bufPos;
      var take := if n < avail then n else avail;
      CopyIsStream(blocks, bufPos, take);
      piece := buf[bufPos..bufPos + take];
      PositionStep(Position(), take);
      bufPos := bufPos + take;
      produced := (produced + take) % TWO64;
      Pack();
    }

    /** The copied slice of the buffer is the stream at the current position. */
    lemma CopyIsStream(blocks': nat, pos: nat, take: nat)
      requires Valid() && blocks' == blocks && pos == bufPos && blocks > 0 && pos + take <= 64
      ensures buf[pos..pos + take] == Stream(key, nonce, 64 * blocks' - (64 - pos), take)
    {
      hide Block;
      var start := 64 * blocks - (64 - pos);
      var copied := buf[pos..pos + take];
      forall i | 0 <= i < take ensures copied[i] == StreamByte(key, nonce, start + i) {
        assert start + i == 64 * (blocks - 1) + (pos + i);
        assert (start + i) / 64 == blocks - 1 && (start + i) % 64 == pos + i;
      }
    }

    /** Splitting a request never changes the bytes, as long as the pieces together stay within the reseed limit. */
    method FillPieces(sizes: seq<nat>, unused: Entropy) returns (out: seq<byte>)
      requires Valid() && seeded && Position() + Total(sizes) <= RESEED_AFTER
      modifies this, buf
      ensures Valid() && key == old(key) && nonce == old(nonce) && old(Position()) >= 0
      ensures out == Stream(key, nonce, old(Position()), Total(sizes))
    {
      hide Valid, Position, Stream;
      UnpackPosition();
      StreamNothing(key, nonce, Position());
      out := [];
      var used := 0;
      for i := 0 to |sizes|
        invariant Valid() && seeded && key == old(key) && nonce == old(nonce)
        invariant 0 <= old(Position()) && Position() == old(Position()) + used && used == Total(sizes[..i])
        invariant out == Stream(key, nonce, old(Position()), used)
      {
        TotalPrefix(sizes, i);
        var piece := FillWithinLimit(sizes[i], unused);
        StreamSplit(key, nonce, old(Position()), used, sizes[i]);
        out := out + piece;
        used := used + sizes[i];
      }
      assert sizes[..|sizes|] == sizes;
    }

    method FillWithinLimit(n: nat, unused: Entropy) returns (piece: seq<byte>)
      requires Valid() && seeded && Position() + n <= RESEED_AFTER
      modifies this, buf
      ensures Valid() && seeded && key == old(key) && nonce == old(nonce)
      ensures 0 <= old(Position()) && Position() == old(Position()) + n
      ensures piece == Stream(key, nonce, old(Position()), n)
    {
      hide Valid, Position, Stream, SeedKey, SeedNonce;
      UnpackPosition();
      assert produced == Position();
      piece := FillBytes(n, unused, unused);
    }
  }

  function Total(sizes: seq<nat>): nat {
    if sizes == [] then 0 else Total(sizes[..|sizes| - 1]) + sizes[|sizes| - 1]
  }

  lemma {:induction false} TotalPrefix(sizes: seq<nat>, i: nat)
    requires i < |sizes|
    ensures Total(sizes[..i + 1]) == Total(sizes[..i]) + sizes[i]
    ensures Total(sizes[..i + 1]) <= Total(sizes)
    decreases |sizes| - i
  {
    assert sizes[..i + 1][..i] == sizes[..i];
    if i + 1 < |sizes| {
      TotalPrefix(sizes, i + 1);
    } else {
      assert sizes[..i + 1] == sizes;
    }
  }

  lemma StreamNothing(key: Key, nonce: Nonce, pos: nat)
    ensures Stream(key, nonce, pos, 0) == []
  {
  }

  lemma BlockIs(key: Key, counter: nat, nonce: Nonce)
    requires counter < TWO64
    ensures Block(key, counter, nonce) ==
            Serialize(AddStates(DoubleRounds(InitialState(key, counter, nonce), 10), InitialState(key, counter, nonce)))
  {
    hide Serialize, AddStates, DoubleRounds, InitialState;
  }

  lemma CounterStep(blocks: nat)
    ensures (blocks % TWO64 + 1) % TWO64 == (blocks + 1) % TWO64
  {
  }

  lemma PositionStep(p: nat, take: nat)
    ensures (p % TWO64 + take) % TWO64 == (p + take) % TWO64
  {
  }
}
