/** What the functions and constants of SHA-256 are: the choice and the majority bit by bit, the rotation, the padding,
    the constants of sections 4.2.2 and 5.3.3 of FIPS 180-4 as roots of primes, and the digest of the message "abc". */
module Sha256Proofs {
  import opened Arith
  import opened Bytes
  import opened Sha256

  // ---- the logical functions ----

  /** Where x has ones the bits are those of y, where it has zeros those of z. */
  lemma ChoosesBits(x: Word, y: Word, z: Word)
    ensures Ch(x, y, z) & x == y & x
    ensures Ch(x, y, z) & !x == z & !x
  {
  }

  /** Where two of the words agree the bits are theirs. */
  lemma MajorityBits(x: Word, y: Word, z: Word)
    ensures Maj(x, y, z) & !(x ^ y) == x & !(x ^ y)
    ensures Maj(x, y, z) & !(x ^ z) == x & !(x ^ z)
    ensures Maj(x, y, z) & !(y ^ z) == y & !(y ^ z)
  {
    hide Maj;
    FirstTwo(x, y, z);
    FirstAndLast(x, y, z);
    LastTwo(x, y, z);
  }

  lemma FirstTwo(x: Word, y: Word, z: Word)
    ensures Maj(x, y, z) & !(x ^ y) == x & !(x ^ y)
  {
  }

  lemma FirstAndLast(x: Word, y: Word, z: Word)
    ensures Maj(x, y, z) & !(x ^ z) == x & !(x ^ z)
  {
  }

  lemma LastTwo(x: Word, y: Word, z: Word)
    ensures Maj(x, y, z) & !(y ^ z) == y & !(y ^ z)
  {
  }

  /** The low n bits go to the top and the others to the bottom. */
  lemma RotrSwaps(x: Word, n: Word)
    requires 0 < n < 32
    ensures Rotr(x, n) & (0xFFFF_FFFF >> n) == x >> n
    ensures Rotr(x, n) >> (32 - n) == x & !(0xFFFF_FFFF << n)
  {
    RawRotation(x, n);
  }

  lemma RawRotation(x: Word, n: Word)
    requires 0 < n < 32
    ensures ((x >> n) | (x << (32 - n))) & (0xFFFF_FFFF >> n) == x >> n
    ensures ((x >> n) | (x << (32 - n))) >> (32 - n) == x & !(0xFFFF_FFFF << n)
  {
  }

  // ---- the padding ----

  /** The message, a one bit, zeros, and the bit count in eight bytes, most significant first. */
  lemma PaddingIs(m: seq<byte>)
    ensures var p, n := Pad(m), |m|;
            && |p| % 64 == 0 && n + 9 <= |p| <= n + 72 && p[..n] == m && p[n] == 0x80
            && (forall i :: n < i < |p| - 8 ==> p[i] == 0)
            && (forall i :: 0 <= i < 8 ==> p[|p| - 1 - i] == LE(8 * n, 8)[i])
  {
    hide BE64;
    var p, n, bits := Pad(m), |m|, BE64(8 * |m|);
    var z := Zeros(ZeroCount(n));
    assert p == m + ([0x80] + z + bits);
    forall i | 0 <= i < 8 ensures p[|p| - 1 - i] == LE(8 * n, 8)[i] {
      assert p[|p| - 1 - i] == bits[7 - i];
      LastByteFirst(8 * n, i);
    }
  }

  lemma LastByteFirst(n: nat, i: nat)
    requires i < 8
    ensures BE64(n)[7 - i] == LE(n, 8)[i]
  {
    hide LE, Pow256;
    LEAt(n, 8, i);
  }

  // ---- the constants ----

  const PRIMES: seq<nat> :=
    [2, 3, 5, 7, 11, 13, 17, 19]
    + [23, 29, 31, 37, 41, 43, 47, 53]
    + [59, 61, 67, 71, 73, 79, 83, 89]
    + [97, 101, 103, 107, 109, 113, 127, 131]
    + [137, 139, 149, 151, 157, 163, 167, 173]
    + [179, 181, 191, 193, 197, 199, 211, 223]
    + [227, 229, 233, 239, 241, 251, 257, 263]
    + [269, 271, 277, 281, 283, 293, 307, 311]

  const TWO96: nat := 0x1_0000_0000_0000_0000_0000_0000

  predicate Prime(p: nat) { p >= 2 && forall d :: 2 <= d < p ==> p % d != 0 }

  /** The first 32 bits after the point of the cube root of p. */
  ghost predicate CubeRootBits(w: Word, p: nat) {
    exists x: nat :: x * x * x <= p * TWO96 < (x + 1) * (x + 1) * (x + 1) && w as int == x % TWO32
  }

  /** The first 32 bits after the point of the square root of p. */
  ghost predicate SquareRootBits(w: Word, p: nat) {
    exists x: nat :: x * x <= p * TWO64 < (x + 1) * (x + 1) && w as int == x % TWO32
  }

  lemma CubeRoot(w: Word, p: nat, x: nat)
    requires x * x * x <= p * TWO96 < (x + 1) * (x + 1) * (x + 1) && w as int == x % TWO32
    ensures CubeRootBits(w, p)
  {
  }

  lemma SquareRoot(w: Word, p: nat, x: nat)
    requires x * x <= p * TWO64 < (x + 1) * (x + 1) && w as int == x % TWO32
    ensures SquareRootBits(w, p)
  {
  }

  /** The constants are the fractional parts of the roots of the first primes. */
  lemma ConstantsAreRoots()
    ensures |K| == 64 && |PRIMES| == 64 && |H0| == 8
    ensures forall i :: 0 <= i < 64 ==> CubeRootBits(K[i], PRIMES[i])
    ensures forall i :: 0 <= i < 8 ==> SquareRootBits(H0[i], PRIMES[i])
  {
    hide CubeRootBits, SquareRootBits;
    Roots0();
    Roots8();
    Roots16();
    Roots24();
    Roots32();
    Roots40();
    Roots48();
    Roots56();
    StartRoots();
  }

  lemma Roots0()
    ensures forall i :: 0 <= i < 8 ==> CubeRootBits(K[i], PRIMES[i])
  {
    hide CubeRootBits;
    CubeRoot(0x428a2f98, 2, 0x1428a2f98);
    CubeRoot(0x71374491, 3, 0x171374491);
    CubeRoot(0xb5c0fbcf, 5, 0x1b5c0fbcf);
    CubeRoot(0xe9b5dba5, 7, 0x1e9b5dba5);
    CubeRoot(0x3956c25b, 11, 0x23956c25b);
    CubeRoot(0x59f111f1, 13, 0x259f111f1);
    CubeRoot(0x923f82a4, 17, 0x2923f82a4);
    CubeRoot(0xab1c5ed5, 19, 0x2ab1c5ed5);
  }

  lemma Roots8()
    ensures forall i :: 8 <= i < 16 ==> CubeRootBits(K[i], PRIMES[i])
  {
    hide CubeRootBits;
    CubeRoot(0xd807aa98, 23, 0x2d807aa98);
    CubeRoot(0x12835b01, 29, 0x312835b01);
    CubeRoot(0x243185be, 31, 0x3243185be);
    CubeRoot(0x550c7dc3, 37, 0x3550c7dc3);
    CubeRoot(0x72be5d74, 41, 0x372be5d74);
    CubeRoot(0x80deb1fe, 43, 0x380deb1fe);
    CubeRoot(0x9bdc06a7, 47, 0x39bdc06a7);
    CubeRoot(0xc19bf174, 53, 0x3c19bf174);
  }

  lemma Roots16()
    ensures forall i :: 16 <= i < 24 ==> CubeRootBits(K[i], PRIMES[i])
  {
    hide CubeRootBits;
    CubeRoot(0xe49b69c1, 59, 0x3e49b69c1);
    CubeRoot(0xefbe4786, 61, 0x3efbe4786);
    CubeRoot(0x0fc19dc6, 67, 0x40fc19dc6);
    CubeRoot(0x240ca1cc, 71, 0x4240ca1cc);
    CubeRoot(0x2de92c6f, 73, 0x42de92c6f);
    CubeRoot(0x4a7484aa, 79, 0x44a7484aa);
    CubeRoot(0x5cb0a9dc, 83, 0x45cb0a9dc);
    CubeRoot(0x76f988da, 89, 0x476f988da);
  }

  lemma Roots24()
    ensures forall i :: 24 <= i < 32 ==> CubeRootBits(K[i], PRIMES[i])
  {
    hide CubeRootBits;
    CubeRoot(0x983e5152, 97, 0x4983e5152);
    CubeRoot(0xa831c66d, 101, 0x4a831c66d);
    CubeRoot(0xb00327c8, 103, 0x4b00327c8);
    CubeRoot(0xbf597fc7, 107, 0x4bf597fc7);
    CubeRoot(0xc6e00bf3, 109, 0x4c6e00bf3);
    CubeRoot(0xd5a79147, 113, 0x4d5a79147);
    CubeRoot(0x06ca6351, 127, 0x506ca6351);
    CubeRoot(0x14292967, 131, 0x514292967);
  }

  lemma Roots32()
    ensures forall i :: 32 <= i < 40 ==> CubeRootBits(K[i], PRIMES[i])
  {
    hide CubeRootBits;
    CubeRoot(0x27b70a85, 137, 0x527b70a85);
    CubeRoot(0x2e1b2138, 139, 0x52e1b2138);
    CubeRoot(0x4d2c6dfc, 149, 0x54d2c6dfc);
    CubeRoot(0x53380d13, 151, 0x553380d13);
    CubeRoot(0x650a7354, 157, 0x5650a7354);
    CubeRoot(0x766a0abb, 163, 0x5766a0abb);
    CubeRoot(0x81c2c92e, 167, 0x581c2c92e);
    CubeRoot(0x92722c85, 173, 0x592722c85);
  }

  lemma Roots40()
    ensures forall i :: 40 <= i < 48 ==> CubeRootBits(K[i], PRIMES[i])
  {
    hide CubeRootBits;
    CubeRoot(0xa2bfe8a1, 179, 0x5a2bfe8a1);
    CubeRoot(0xa81a664b, 181, 0x5a81a664b);
    CubeRoot(0xc24b8b70, 191, 0x5c24b8b70);
    CubeRoot(0xc76c51a3, 193, 0x5c76c51a3);
    CubeRoot(0xd192e819, 197, 0x5d192e819);
    CubeRoot(0xd6990624, 199, 0x5d6990624);
    CubeRoot(0xf40e3585, 211, 0x5f40e3585);
    CubeRoot(0x106aa070, 223, 0x6106aa070);
  }

  lemma Roots48()
    ensures forall i :: 48 <= i < 56 ==> CubeRootBits(K[i], PRIMES[i])
  {
    hide CubeRootBits;
    CubeRoot(0x19a4c116, 227, 0x619a4c116);
    CubeRoot(0x1e376c08, 229, 0x61e376c08);
    CubeRoot(0x2748774c, 233, 0x62748774c);
    CubeRoot(0x34b0bcb5, 239, 0x634b0bcb5);
    CubeRoot(0x391c0cb3, 241, 0x6391c0cb3);
    CubeRoot(0x4ed8aa4a, 251, 0x64ed8aa4a);
    CubeRoot(0x5b9cca4f, 257, 0x65b9cca4f);
    CubeRoot(0x682e6ff3, 263, 0x6682e6ff3);
  }

  lemma Roots56()
    ensures forall i :: 56 <= i < 64 ==> CubeRootBits(K[i], PRIMES[i])
  {
    hide CubeRootBits;
    CubeRoot(0x748f82ee, 269, 0x6748f82ee);
    CubeRoot(0x78a5636f, 271, 0x678a5636f);
    CubeRoot(0x84c87814, 277, 0x684c87814);
    CubeRoot(0x8cc70208, 281, 0x68cc70208);
    CubeRoot(0x90befffa, 283, 0x690befffa);
    CubeRoot(0xa4506ceb, 293, 0x6a4506ceb);
    CubeRoot(0xbef9a3f7, 307, 0x6bef9a3f7);
    CubeRoot(0xc67178f2, 311, 0x6c67178f2);
  }

  lemma StartRoots()
    ensures forall i :: 0 <= i < 8 ==> SquareRootBits(H0[i], PRIMES[i])
  {
    hide SquareRootBits;
    SquareRoot(0x6a09e667, 2, 0x16a09e667);
    SquareRoot(0xbb67ae85, 3, 0x1bb67ae85);
    SquareRoot(0x3c6ef372, 5, 0x23c6ef372);
    SquareRoot(0xa54ff53a, 7, 0x2a54ff53a);
    SquareRoot(0x510e527f, 11, 0x3510e527f);
    SquareRoot(0x9b05688c, 13, 0x39b05688c);
    SquareRoot(0x1f83d9ab, 17, 0x41f83d9ab);
    SquareRoot(0x5be0cd19, 19, 0x45be0cd19);
  }

  /** PRIMES lists the primes up to 311, smallest first. */
  lemma FirstPrimes(p: nat, i: nat)
    requires p <= 311 && i < 63
    ensures Prime(p) <==> p in PRIMES
    ensures |PRIMES| == 64 && PRIMES[i] < PRIMES[i + 1]
  {
    hide Listed;
    if i < 31 {
      AscendingFront(i);
    } else {
      AscendingBack(i);
    }
    Listing(p);
    if p >= 2 {
      if Listed(p) {
        ListedIsPrime(p);
      } else {
        Unlisted(p);
      }
    }
  }

  lemma AscendingFront(i: nat)
    requires i < 31
    ensures PRIMES[i] < PRIMES[i + 1]
  {
    match i / 8
    case 0 => case 1 => case 2 => case _ =>
  }

  lemma AscendingBack(i: nat)
    requires 31 <= i < 63
    ensures PRIMES[i] < PRIMES[i + 1]
  {
    match i / 8
    case 3 => case 4 => case 5 => case 6 => case _ =>
  }

  predicate Listed(p: nat) {
    p in {
      2, 3, 5, 7, 11, 13, 17, 19, 23, 29, 31, 37, 41, 43, 47, 53,
      59, 61, 67, 71, 73, 79, 83, 89, 97, 101, 103, 107, 109, 113, 127, 131,
      137, 139, 149, 151, 157, 163, 167, 173, 179, 181, 191, 193, 197, 199, 211, 223,
      227, 229, 233, 239, 241, 251, 257, 263, 269, 271, 277, 281, 283, 293, 307, 311}
  }

  lemma Listing(p: nat)
    ensures p in PRIMES <==> Listed(p)
  {
  }

  lemma ListedRange(p: nat)
    requires Listed(p)
    ensures 2 <= p <= 311
  {
  }

  lemma SmallDivisor(p: nat, d: nat)
    requires Listed(p) && 2 <= d <= 17 && d < p
    ensures p % d != 0
  {
  }

  lemma ListedIsPrime(p: nat)
    requires Listed(p)
    ensures Prime(p)
  {
    hide Listed;
    ListedRange(p);
    forall d | 2 <= d < p ensures p % d != 0 {
      if d <= 17 {
        SmallDivisor(p, d);
      } else if p % d == 0 {
        var q := p / d;
        assert p == q * d;
        MulMod(d, q);
        SmallDivisor(p, q);
      }
    }
  }

  lemma Unlisted(p: nat)
    requires 2 <= p <= 311 && !Listed(p)
    ensures !Prime(p)
  {
    var d := SmallestDivisor(p);
    assert 2 <= d < p && p % d == 0;
  }

  lemma SmallestDivisor(p: nat) returns (d: nat)
    requires 2 <= p <= 311 && !Listed(p)
    ensures 2 <= d < p && p % d == 0
  {
    if p % 2 == 0 {
      d := 2;
    } else if p % 3 == 0 {
      d := 3;
    } else if p % 5 == 0 {
      d := 5;
    } else {
      d := if p % 7 == 0 then 7 else if p % 11 == 0 then 11 else if p % 13 == 0 then 13 else 17;
      CoprimeTo30(p);
    }
  }

  lemma CoprimeTo30(p: nat)
    requires 2 <= p <= 311 && !Listed(p) && p % 2 != 0 && p % 3 != 0 && p % 5 != 0
    ensures p % 7 == 0 || p % 11 == 0 || p % 13 == 0 || p % 17 == 0
    ensures p > 17
  {
    hide Listed;
    var q, r := p / 30, p % 30;
    Residue(q, r);
    assert p == 30 * q + r;
    Wheel(q, r);
  }

  lemma Residue(q: nat, r: nat)
    requires r < 30 && (30 * q + r) % 2 != 0 && (30 * q + r) % 3 != 0 && (30 * q + r) % 5 != 0
    ensures r in {1, 7, 11, 13, 17, 19, 23, 29}
  {
    DivModUnique(30 * q + r, 2, 15 * q + r / 2, r % 2);
    DivModUnique(30 * q + r, 3, 10 * q + r / 3, r % 3);
    DivModUnique(30 * q + r, 5, 6 * q + r / 5, r % 5);
    SmallResidue(r);
  }

  lemma SmallResidue(r: nat)
    requires r < 30 && r % 2 != 0 && r % 3 != 0 && r % 5 != 0
    ensures r in {1, 7, 11, 13, 17, 19, 23, 29}
  {
  }

  lemma Wheel(q: nat, r: nat)
    requires q <= 10 && r in {1, 7, 11, 13, 17, 19, 23, 29} && 2 <= 30 * q + r <= 311 && !Listed(30 * q + r)
    ensures var p := 30 * q + r; p > 17 && (p % 7 == 0 || p % 11 == 0 || p % 13 == 0 || p % 17 == 0)
  {
    match r
    case 1 => case 7 => case 11 => case 13 => case 17 => case 19 => case 23 => case _ =>
  }

  // ---- the digest of "abc" ----

  datatype Eight = Eight(a: Word, b: Word, c: Word, d: Word, e: Word, f: Word, g: Word, h: Word)

  const W0 := Eight(0x61626380, 0x00000000, 0x00000000, 0x00000000, 0x00000000, 0x00000000, 0x00000000, 0x00000000)
  const W8 := Eight(0x00000000, 0x00000000, 0x00000000, 0x00000000, 0x00000000, 0x00000000, 0x00000000, 0x00000018)
  const W16 := Eight(0x61626380, 0x000f0000, 0x7da86405, 0x600003c6, 0x3e9d7b78, 0x0183fc00, 0x12dcbfdb, 0xe2e2c38e)
  const W24 := Eight(0xc8215c1a, 0xb73679a2, 0xe5bc3909, 0x32663c5b, 0x9d209d67, 0xec8726cb, 0x702138a4, 0xd3b7973b)
  const W32 := Eight(0x93f5997f, 0x3b68ba73, 0xaff4ffc1, 0xf10a5c62, 0x0a8b3996, 0x72af830a, 0x9409e33e, 0x24641522)
  const W40 := Eight(0x9f47bf94, 0xf0a64f5a, 0x3e246a79, 0x27333ba3, 0x0c4763f2, 0x840abf27, 0x7a290d5d, 0x065c43da)
  const W48 := Eight(0xfb3e89cb, 0xcc7617db, 0xb9e66c34, 0xa9993667, 0x84badedd, 0xc21462bc, 0x1487472c, 0xb20f7a99)
  const W56 := Eight(0xef57b9cd, 0xebe6b238, 0x9fe3095e, 0x78bc8d4b, 0xa43fcf15, 0x668b2ff8, 0xeeaba2cc, 0x12b1edeb)

  const V0 := Vars(0x6a09e667, 0xbb67ae85, 0x3c6ef372, 0xa54ff53a, 0x510e527f, 0x9b05688c, 0x1f83d9ab, 0x5be0cd19)
  const V8 := Vars(0x85a07b5f, 0xe5030380, 0x2b4209f5, 0x04409a6a, 0x0c657a79, 0x9b27a401, 0x714260ad, 0x43ada245)
  const V16 := Vars(0xb0fa238e, 0xc0645fde, 0xd932eb16, 0x87912990, 0x07590dcd, 0x0b92f20c, 0x745a48de, 0x1e578218)
  const V24 := Vars(0xc5d53d8d, 0xa7a3623f, 0xc2606d6d, 0x9dc68b63, 0xaa47c347, 0x49f5114a, 0xe1257970, 0x8ada8930)
  const V32 := Vars(0x73b33bf5, 0xea992a22, 0xa0060b30, 0x363482c9, 0xba591112, 0x0109ab3a, 0xade79437, 0x6112a3b7)
  const V40 := Vars(0x79ea687a, 0x6dc57a8a, 0x34df1604, 0x41a65cb1, 0x1efbc0a0, 0xf0781bc8, 0xa507a53d, 0x0772a26b)
  const V48 := Vars(0x4172328d, 0xa14c14b0, 0x72ab4b91, 0x26628815, 0xfecf0bc6, 0xd57b94a9, 0xb7755da1, 0xa80f11f0)
  const V56 := Vars(0x38cc9913, 0x3ec45cdb, 0xf5702fdb, 0x101fd28f, 0x54cb266b, 0xe50e1b4f, 0x9f4787c3, 0x529e7d00)
  const V64 := Vars(0x506e3058, 0xd39a2165, 0x04d24d6c, 0xb85e2ce9, 0x5ef50f24, 0xfb121210, 0x948d25b6, 0x961f4894)

  /** Eight words of the message schedule. */
  predicate WordsFrom(block: seq<byte>, t: nat, ws: Eight) {
    && |block| == 64
    && Schedule(block, t) == ws.a && Schedule(block, t + 1) == ws.b
    && Schedule(block, t + 2) == ws.c && Schedule(block, t + 3) == ws.d
    && Schedule(block, t + 4) == ws.e && Schedule(block, t + 5) == ws.f
    && Schedule(block, t + 6) == ws.g && Schedule(block, t + 7) == ws.h
  }

  lemma Expand(block: seq<byte>, t: nat, w16: Word, w15: Word, w7: Word, w2: Word, w: Word)
    requires |block| == 64 && t >= 16
    requires Schedule(block, t - 16) == w16 && Schedule(block, t - 15) == w15
    requires Schedule(block, t - 7) == w7 && Schedule(block, t - 2) == w2
    requires Add(Add(Add(w16, SmallSigma0(w15)), w7), SmallSigma1(w2)) == w
    ensures Schedule(block, t) == w
  {
  }

  /** One round takes the variables v of round t to the ones with the new a and e. */
  lemma Turn(block: seq<byte>, t: nat, v: Vars, k: Word, w: Word, a: Word, e: Word) returns (next: Vars)
    requires |block| == 64 && t < 64 && Rounds(V0, block, t) == v && K[t] == k && Schedule(block, t) == w
    requires Round(v, k, w).a == a && Round(v, k, w).e == e
    ensures next == Vars(a, v.a, v.b, v.c, e, v.e, v.f, v.g) && Rounds(V0, block, t + 1) == next
  {
    next := Vars(a, v.a, v.b, v.c, e, v.e, v.f, v.g);
  }

  lemma Constants0()
    ensures K[0] == 0x428a2f98 && K[1] == 0x71374491 && K[2] == 0xb5c0fbcf && K[3] == 0xe9b5dba5
    ensures K[4] == 0x3956c25b && K[5] == 0x59f111f1 && K[6] == 0x923f82a4 && K[7] == 0xab1c5ed5
  {
  }

  lemma Constants8()
    ensures K[8] == 0xd807aa98 && K[9] == 0x12835b01 && K[10] == 0x243185be && K[11] == 0x550c7dc3
    ensures K[12] == 0x72be5d74 && K[13] == 0x80deb1fe && K[14] == 0x9bdc06a7 && K[15] == 0xc19bf174
  {
  }

  lemma Constants16()
    ensures K[16] == 0xe49b69c1 && K[17] == 0xefbe4786 && K[18] == 0x0fc19dc6 && K[19] == 0x240ca1cc
    ensures K[20] == 0x2de92c6f && K[21] == 0x4a7484aa && K[22] == 0x5cb0a9dc && K[23] == 0x76f988da
  {
  }

  lemma Constants24()
    ensures K[24] == 0x983e5152 && K[25] == 0xa831c66d && K[26] == 0xb00327c8 && K[27] == 0xbf597fc7
    ensures K[28] == 0xc6e00bf3 && K[29] == 0xd5a79147 && K[30] == 0x06ca6351 && K[31] == 0x14292967
  {
  }

  lemma Constants32()
    ensures K[32] == 0x27b70a85 && K[33] == 0x2e1b2138 && K[34] == 0x4d2c6dfc && K[35] == 0x53380d13
    ensures K[36] == 0x650a7354 && K[37] == 0x766a0abb && K[38] == 0x81c2c92e && K[39] == 0x92722c85
  {
  }

  lemma Constants40()
    ensures K[40] == 0xa2bfe8a1 && K[41] == 0xa81a664b && K[42] == 0xc24b8b70 && K[43] == 0xc76c51a3
    ensures K[44] == 0xd192e819 && K[45] == 0xd6990624 && K[46] == 0xf40e3585 && K[47] == 0x106aa070
  {
  }

  lemma Constants48()
    ensures K[48] == 0x19a4c116 && K[49] == 0x1e376c08 && K[50] == 0x2748774c && K[51] == 0x34b0bcb5
    ensures K[52] == 0x391c0cb3 && K[53] == 0x4ed8aa4a && K[54] == 0x5b9cca4f && K[55] == 0x682e6ff3
  {
  }

  lemma Constants56()
    ensures K[56] == 0x748f82ee && K[57] == 0x78a5636f && K[58] == 0x84c87814 && K[59] == 0x8cc70208
    ensures K[60] == 0x90befffa && K[61] == 0xa4506ceb && K[62] == 0xbef9a3f7 && K[63] == 0xc67178f2
  {
  }

  lemma Schedule16(block: seq<byte>)
    requires WordsFrom(block, 0, W0) && WordsFrom(block, 8, W8)
    ensures WordsFrom(block, 16, W16)
  {
    hide Schedule;
    Expand(block, 16, 0x61626380, 0x00000000, 0x00000000, 0x00000000, 0x61626380);
    Expand(block, 17, 0x00000000, 0x00000000, 0x00000000, 0x00000018, 0x000f0000);
    Expand(block, 18, 0x00000000, 0x00000000, 0x00000000, 0x61626380, 0x7da86405);
    Expand(block, 19, 0x00000000, 0x00000000, 0x00000000, 0x000f0000, 0x600003c6);
    Expand(block, 20, 0x00000000, 0x00000000, 0x00000000, 0x7da86405, 0x3e9d7b78);
    Expand(block, 21, 0x00000000, 0x00000000, 0x00000000, 0x600003c6, 0x0183fc00);
    Expand(block, 22, 0x00000000, 0x00000000, 0x00000018, 0x3e9d7b78, 0x12dcbfdb);
    Expand(block, 23, 0x00000000, 0x00000000, 0x61626380, 0x0183fc00, 0xe2e2c38e);
  }

  lemma Schedule24(block: seq<byte>)
    requires WordsFrom(block, 8, W8) && WordsFrom(block, 16, W16)
    ensures WordsFrom(block, 24, W24)
  {
    hide Schedule;
    Expand(block, 24, 0x00000000, 0x00000000, 0x000f0000, 0x12dcbfdb, 0xc8215c1a);
    Expand(block, 25, 0x00000000, 0x00000000, 0x7da86405, 0xe2e2c38e, 0xb73679a2);
    Expand(block, 26, 0x00000000, 0x00000000, 0x600003c6, 0xc8215c1a, 0xe5bc3909);
    Expand(block, 27, 0x00000000, 0x00000000, 0x3e9d7b78, 0xb73679a2, 0x32663c5b);
    Expand(block, 28, 0x00000000, 0x00000000, 0x0183fc00, 0xe5bc3909, 0x9d209d67);
    Expand(block, 29, 0x00000000, 0x00000000, 0x12dcbfdb, 0x32663c5b, 0xec8726cb);
    Expand(block, 30, 0x00000000, 0x00000018, 0xe2e2c38e, 0x9d209d67, 0x702138a4);
    Expand(block, 31, 0x00000018, 0x61626380, 0xc8215c1a, 0xec8726cb, 0xd3b7973b);
  }

  lemma Schedule32(block: seq<byte>)
    requires WordsFrom(block, 16, W16) && WordsFrom(block, 24, W24)
    ensures WordsFrom(block, 32, W32)
  {
    hide Schedule;
    Expand(block, 32, 0x61626380, 0x000f0000, 0xb73679a2, 0x702138a4, 0x93f5997f);
    Expand(block, 33, 0x000f0000, 0x7da86405, 0xe5bc3909, 0xd3b7973b, 0x3b68ba73);
    Expand(block, 34, 0x7da86405, 0x600003c6, 0x32663c5b, 0x93f5997f, 0xaff4ffc1);
    Expand(block, 35, 0x600003c6, 0x3e9d7b78, 0x9d209d67, 0x3b68ba73, 0xf10a5c62);
    Expand(block, 36, 0x3e9d7b78, 0x0183fc00, 0xec8726cb, 0xaff4ffc1, 0x0a8b3996);
    Expand(block, 37, 0x0183fc00, 0x12dcbfdb, 0x702138a4, 0xf10a5c62, 0x72af830a);
    Expand(block, 38, 0x12dcbfdb, 0xe2e2c38e, 0xd3b7973b, 0x0a8b3996, 0x9409e33e);
    Expand(block, 39, 0xe2e2c38e, 0xc8215c1a, 0x93f5997f, 0x72af830a, 0x24641522);
  }

  lemma Schedule40(block: seq<byte>)
    requires WordsFrom(block, 24, W24) && WordsFrom(block, 32, W32)
    ensures WordsFrom(block, 40, W40)
  {
    hide Schedule;
    Expand(block, 40, 0xc8215c1a, 0xb73679a2, 0x3b68ba73, 0x9409e33e, 0x9f47bf94);
    Expand(block, 41, 0xb73679a2, 0xe5bc3909, 0xaff4ffc1, 0x24641522, 0xf0a64f5a);
    Expand(block, 42, 0xe5bc3909, 0x32663c5b, 0xf10a5c62, 0x9f47bf94, 0x3e246a79);
    Expand(block, 43, 0x32663c5b, 0x9d209d67, 0x0a8b3996, 0xf0a64f5a, 0x27333ba3);
    Expand(block, 44, 0x9d209d67, 0xec8726cb, 0x72af830a, 0x3e246a79, 0x0c4763f2);
    Expand(block, 45, 0xec8726cb, 0x702138a4, 0x9409e33e, 0x27333ba3, 0x840abf27);
    Expand(block, 46, 0x702138a4, 0xd3b7973b, 0x24641522, 0x0c4763f2, 0x7a290d5d);
    Expand(block, 47, 0xd3b7973b, 0x93f5997f, 0x9f47bf94, 0x840abf27, 0x065c43da);
  }

  lemma Schedule48(block: seq<byte>)
    requires WordsFrom(block, 32, W32) && WordsFrom(block, 40, W40)
    ensures WordsFrom(block, 48, W48)
  {
    hide Schedule;
    Expand(block, 48, 0x93f5997f, 0x3b68ba73, 0xf0a64f5a, 0x7a290d5d, 0xfb3e89cb);
    Expand(block, 49, 0x3b68ba73, 0xaff4ffc1, 0x3e246a79, 0x065c43da, 0xcc7617db);
    Expand(block, 50, 0xaff4ffc1, 0xf10a5c62, 0x27333ba3, 0xfb3e89cb, 0xb9e66c34);
    Expand(block, 51, 0xf10a5c62, 0x0a8b3996, 0x0c4763f2, 0xcc7617db, 0xa9993667);
    Expand(block, 52, 0x0a8b3996, 0x72af830a, 0x840abf27, 0xb9e66c34, 0x84badedd);
    Expand(block, 53, 0x72af830a, 0x9409e33e, 0x7a290d5d, 0xa9993667, 0xc21462bc);
    Expand(block, 54, 0x9409e33e, 0x24641522, 0x065c43da, 0x84badedd, 0x1487472c);
    Expand(block, 55, 0x24641522, 0x9f47bf94, 0xfb3e89cb, 0xc21462bc, 0xb20f7a99);
  }

  lemma Schedule56(block: seq<byte>)
    requires WordsFrom(block, 40, W40) && WordsFrom(block, 48, W48)
    ensures WordsFrom(block, 56, W56)
  {
    hide Schedule;
    Expand(block, 56, 0x9f47bf94, 0xf0a64f5a, 0xcc7617db, 0x1487472c, 0xef57b9cd);
    Expand(block, 57, 0xf0a64f5a, 0x3e246a79, 0xb9e66c34, 0xb20f7a99, 0xebe6b238);
    Expand(block, 58, 0x3e246a79, 0x27333ba3, 0xa9993667, 0xef57b9cd, 0x9fe3095e);
    Expand(block, 59, 0x27333ba3, 0x0c4763f2, 0x84badedd, 0xebe6b238, 0x78bc8d4b);
    Expand(block, 60, 0x0c4763f2, 0x840abf27, 0xc21462bc, 0x9fe3095e, 0xa43fcf15);
    Expand(block, 61, 0x840abf27, 0x7a290d5d, 0x1487472c, 0x78bc8d4b, 0x668b2ff8);
    Expand(block, 62, 0x7a290d5d, 0x065c43da, 0xb20f7a99, 0xa43fcf15, 0xeeaba2cc);
    Expand(block, 63, 0x065c43da, 0xfb3e89cb, 0xef57b9cd, 0x668b2ff8, 0x12b1edeb);
  }

  lemma Rounds0(block: seq<byte>)
    requires WordsFrom(block, 0, W0) && Rounds(V0, block, 0) == V0
    ensures Rounds(V0, block, 8) == V8
  {
    hide Schedule, Rounds;
    Constants0();
    var v := V0;
    v := Turn(block, 0, v, 0x428a2f98, 0x61626380, 0x5d6aebcd, 0xfa2a4622);
    v := Turn(block, 1, v, 0x71374491, 0x00000000, 0x5a6ad9ad, 0x78ce7989);
    v := Turn(block, 2, v, 0xb5c0fbcf, 0x00000000, 0xc8c347a7, 0xf92939eb);
    v := Turn(block, 3, v, 0xe9b5dba5, 0x00000000, 0xd550f666, 0x24e00850);
    v := Turn(block, 4, v, 0x3956c25b, 0x00000000, 0x04409a6a, 0x43ada245);
    v := Turn(block, 5, v, 0x59f111f1, 0x00000000, 0x2b4209f5, 0x714260ad);
    v := Turn(block, 6, v, 0x923f82a4, 0x00000000, 0xe5030380, 0x9b27a401);
    v := Turn(block, 7, v, 0xab1c5ed5, 0x00000000, 0x85a07b5f, 0x0c657a79);
  }

  lemma Rounds8(block: seq<byte>)
    requires WordsFrom(block, 8, W8) && Rounds(V0, block, 8) == V8
    ensures Rounds(V0, block, 16) == V16
  {
    hide Schedule, Rounds;
    Constants8();
    var v := V8;
    v := Turn(block, 8, v, 0xd807aa98, 0x00000000, 0x8e04ecb9, 0x32ca2d8c);
    v := Turn(block, 9, v, 0x12835b01, 0x00000000, 0x8c87346b, 0x1cc92596);
    v := Turn(block, 10, v, 0x243185be, 0x00000000, 0x4798a3f4, 0x436b23e8);
    v := Turn(block, 11, v, 0x550c7dc3, 0x00000000, 0xf71fc5a9, 0x816fd6e9);
    v := Turn(block, 12, v, 0x72be5d74, 0x00000000, 0x87912990, 0x1e578218);
    v := Turn(block, 13, v, 0x80deb1fe, 0x00000000, 0xd932eb16, 0x745a48de);
    v := Turn(block, 14, v, 0x9bdc06a7, 0x00000000, 0xc0645fde, 0x0b92f20c);
    v := Turn(block, 15, v, 0xc19bf174, 0x00000018, 0xb0fa238e, 0x07590dcd);
  }

  lemma Rounds16(block: seq<byte>)
    requires WordsFrom(block, 16, W16) && Rounds(V0, block, 16) == V16
    ensures Rounds(V0, block, 24) == V24
  {
    hide Schedule, Rounds;
    Constants16();
    var v := V16;
    v := Turn(block, 16, v, 0xe49b69c1, 0x61626380, 0x21da9a9b, 0x8034229c);
    v := Turn(block, 17, v, 0xefbe4786, 0x000f0000, 0xc2fbd9d1, 0x846ee454);
    v := Turn(block, 18, v, 0x0fc19dc6, 0x7da86405, 0xfe777bbf, 0xcc899961);
    v := Turn(block, 19, v, 0x240ca1cc, 0x600003c6, 0xe1f20c33, 0xb0638179);
    v := Turn(block, 20, v, 0x2de92c6f, 0x3e9d7b78, 0x9dc68b63, 0x8ada8930);
    v := Turn(block, 21, v, 0x4a7484aa, 0x0183fc00, 0xc2606d6d, 0xe1257970);
    v := Turn(block, 22, v, 0x5cb0a9dc, 0x12dcbfdb, 0xa7a3623f, 0x49f5114a);
    v := Turn(block, 23, v, 0x76f988da, 0xe2e2c38e, 0xc5d53d8d, 0xaa47c347);
  }

  lemma Rounds24(block: seq<byte>)
    requires WordsFrom(block, 24, W24) && Rounds(V0, block, 24) == V24
    ensures Rounds(V0, block, 32) == V32
  {
    hide Schedule, Rounds;
    Constants24();
    var v := V24;
    v := Turn(block, 24, v, 0x983e5152, 0xc8215c1a, 0x1c2c2838, 0x2823ef91);
    v := Turn(block, 25, v, 0xa831c66d, 0xb73679a2, 0xcde8037d, 0x14383d8e);
    v := Turn(block, 26, v, 0xb00327c8, 0xe5bc3909, 0xb62ec4bc, 0xc74c6516);
    v := Turn(block, 27, v, 0xbf597fc7, 0x32663c5b, 0x77d37528, 0xedffbff8);
    v := Turn(block, 28, v, 0xc6e00bf3, 0x9d209d67, 0x363482c9, 0x6112a3b7);
    v := Turn(block, 29, v, 0xd5a79147, 0xec8726cb, 0xa0060b30, 0xade79437);
    v := Turn(block, 30, v, 0x06ca6351, 0x702138a4, 0xea992a22, 0x0109ab3a);
    v := Turn(block, 31, v, 0x14292967, 0xd3b7973b, 0x73b33bf5, 0xba591112);
  }

  lemma Rounds32(block: seq<byte>)
    requires WordsFrom(block, 32, W32) && Rounds(V0, block, 32) == V32
    ensures Rounds(V0, block, 40) == V40
  {
    hide Schedule, Rounds;
    Constants32();
    var v := V32;
    v := Turn(block, 32, v, 0x27b70a85, 0x93f5997f, 0x98e12507, 0x9cd9f5f6);
    v := Turn(block, 33, v, 0x2e1b2138, 0x3b68ba73, 0xfe604df5, 0x59249dd3);
    v := Turn(block, 34, v, 0x4d2c6dfc, 0xaff4ffc1, 0xa9a7738c, 0x085f3833);
    v := Turn(block, 35, v, 0x53380d13, 0xf10a5c62, 0x65a0cfe4, 0xf4b002d6);
    v := Turn(block, 36, v, 0x650a7354, 0x0a8b3996, 0x41a65cb1, 0x0772a26b);
    v := Turn(block, 37, v, 0x766a0abb, 0x72af830a, 0x34df1604, 0xa507a53d);
    v := Turn(block, 38, v, 0x81c2c92e, 0x9409e33e, 0x6dc57a8a, 0xf0781bc8);
    v := Turn(block, 39, v, 0x92722c85, 0x24641522, 0x79ea687a, 0x1efbc0a0);
  }

  lemma Rounds40(block: seq<byte>)
    requires WordsFrom(block, 40, W40) && Rounds(V0, block, 40) == V40
    ensures Rounds(V0, block, 48) == V48
  {
    hide Schedule, Rounds;
    Constants40();
    var v := V40;
    v := Turn(block, 40, v, 0xa2bfe8a1, 0x9f47bf94, 0xd6670766, 0x26352d63);
    v := Turn(block, 41, v, 0xa81a664b, 0xf0a64f5a, 0xdf46652f, 0x838b2711);
    v := Turn(block, 42, v, 0xc24b8b70, 0x3e246a79, 0x17aa0dfe, 0xdecd4715);
    v := Turn(block, 43, v, 0xc76c51a3, 0x27333ba3, 0x9d4baf93, 0xfda24c2e);
    v := Turn(block, 44, v, 0xd192e819, 0x0c4763f2, 0x26628815, 0xa80f11f0);
    v := Turn(block, 45, v, 0xd6990624, 0x840abf27, 0x72ab4b91, 0xb7755da1);
    v := Turn(block, 46, v, 0xf40e3585, 0x7a290d5d, 0xa14c14b0, 0xd57b94a9);
    v := Turn(block, 47, v, 0x106aa070, 0x065c43da, 0x4172328d, 0xfecf0bc6);
  }

  lemma Rounds48(block: seq<byte>)
    requires WordsFrom(block, 48, W48) && Rounds(V0, block, 48) == V48
    ensures Rounds(V0, block, 56) == V56
  {
    hide Schedule, Rounds;
    Constants48();
    var v := V48;
    v := Turn(block, 48, v, 0x19a4c116, 0xfb3e89cb, 0x05757ceb, 0xbd714038);
    v := Turn(block, 49, v, 0x1e376c08, 0xcc7617db, 0xf11bfaa8, 0x6e5c390c);
    v := Turn(block, 50, v, 0x2748774c, 0xb9e66c34, 0x7a0508a1, 0x52f1ccf7);
    v := Turn(block, 51, v, 0x34b0bcb5, 0xa9993667, 0x886e7a22, 0x49231c1e);
    v := Turn(block, 52, v, 0x391c0cb3, 0x84badedd, 0x101fd28f, 0x529e7d00);
    v := Turn(block, 53, v, 0x4ed8aa4a, 0xc21462bc, 0xf5702fdb, 0x9f4787c3);
    v := Turn(block, 54, v, 0x5b9cca4f, 0x1487472c, 0x3ec45cdb, 0xe50e1b4f);
    v := Turn(block, 55, v, 0x682e6ff3, 0xb20f7a99, 0x38cc9913, 0x54cb266b);
  }

  lemma Rounds56(block: seq<byte>)
    requires WordsFrom(block, 56, W56) && Rounds(V0, block, 56) == V56
    ensures Rounds(V0, block, 64) == V64
  {
    hide Schedule, Rounds;
    Constants56();
    var v := V56;
    v := Turn(block, 56, v, 0x748f82ee, 0xef57b9cd, 0xfcd1887b, 0x9b5e906c);
    v := Turn(block, 57, v, 0x78a5636f, 0xebe6b238, 0xc062d46f, 0x7e44008e);
    v := Turn(block, 58, v, 0x84c87814, 0x9fe3095e, 0xffb70472, 0x6d83bfc6);
    v := Turn(block, 59, v, 0x8cc70208, 0x78bc8d4b, 0xb6ae8fff, 0xb21bad3d);
    v := Turn(block, 60, v, 0x90befffa, 0xa43fcf15, 0xb85e2ce9, 0x961f4894);
    v := Turn(block, 61, v, 0xa4506ceb, 0x668b2ff8, 0x04d24d6c, 0x948d25b6);
    v := Turn(block, 62, v, 0xbef9a3f7, 0xeeaba2cc, 0xd39a2165, 0xfb121210);
    v := Turn(block, 63, v, 0xc67178f2, 0x12b1edeb, 0x506e3058, 0x5ef50f24);
  }

  const ABC: seq<byte> := [0x61, 0x62, 0x63]

  /** The only block of the padded message. */
  predicate AbcBlock(block: seq<byte>) {
    && |block| == 64
    && block[0] == 0x61 && block[1] == 0x62 && block[2] == 0x63 && block[3] == 0x80
    && (forall i :: 4 <= i < 63 ==> block[i] == 0)
    && block[63] == 0x18
  }

  lemma PaddedAbc()
    ensures AbcBlock(Pad(ABC))
  {
    hide BE64;
    LengthBytes();
    var z := Zeros(52);
    assert ZeroCount(3) == 52 && 8 * |ABC| == 24;
    assert Pad(ABC) == ABC + [0x80] + z + BE64(24);
  }

  lemma LengthBytes()
    ensures var s := BE64(24); |s| == 8 && s[7] == 0x18 && forall i :: 0 <= i < 7 ==> s[i] == 0
  {
    forall i | 0 <= i < 7 ensures DigitBE(24, i) == 0 {
      LengthByte(i);
    }
    assert Pow256(0) == 1;
  }

  lemma LengthByte(i: nat)
    requires i < 7
    ensures DigitBE(24, i) == 0
  {
    var p := Pow256(6 - i);
    assert Pow256(7 - i) == 256 * p;
    hide Pow256;
    BelowDivisor(256 * p);
  }

  lemma BelowDivisor(p: nat)
    requires p >= 256
    ensures 24 / p == 0
  {
  }

  lemma AbcWords(block: seq<byte>)
    requires AbcBlock(block)
    ensures WordsFrom(block, 0, W0) && WordsFrom(block, 8, W8)
  {
    forall i | 1 <= i < 15 ensures BlockWord(block, i) == 0 {
    }
  }

  lemma AbcSchedule(block: seq<byte>)
    requires AbcBlock(block)
    ensures WordsFrom(block, 0, W0) && WordsFrom(block, 8, W8) && WordsFrom(block, 16, W16)
    ensures WordsFrom(block, 24, W24) && WordsFrom(block, 32, W32) && WordsFrom(block, 40, W40)
    ensures WordsFrom(block, 48, W48) && WordsFrom(block, 56, W56)
  {
    hide *;
    AbcWords(block);
    Schedule16(block);
    Schedule24(block);
    Schedule32(block);
    Schedule40(block);
    Schedule48(block);
    Schedule56(block);
  }

  lemma AbcRounds(block: seq<byte>)
    requires AbcBlock(block)
    ensures |block| == 64 && Rounds(V0, block, 64) == V64
  {
    hide WordsFrom, Schedule, V8, V16, V24, V32, V40, V48, V56, V64, W0, W8, W16, W24, W32, W40, W48, W56;
    AbcSchedule(block);
    assert Rounds(V0, block, 0) == V0;
    hide Rounds;
    Rounds0(block);
    Rounds8(block);
    Rounds16(block);
    Rounds24(block);
    Rounds32(block);
    Rounds40(block);
    Rounds48(block);
    Rounds56(block);
  }

  /** The example of FIPS 180-4: the digest of "abc". */
  lemma AbcDigest()
    ensures Digest(ABC) ==
      [0xba, 0x78, 0x16, 0xbf] + [0x8f, 0x01, 0xcf, 0xea] + [0x41, 0x41, 0x40, 0xde] + [0x5d, 0xae, 0x22, 0x23]
      + [0xb0, 0x03, 0x61, 0xa3] + [0x96, 0x17, 0x7a, 0x9c] + [0xb4, 0x10, 0xff, 0x61] + [0xf2, 0x00, 0x15, 0xad]
  {
    hide Pad, Rounds, AbcBlock;
    var block := Pad(ABC);
    PaddedAbc();
    AbcRounds(block);
    OneBlock(block);
    AbcHash(block);
    HashBytes();
  }

  const ABC_HASH: seq<Word> :=
    [0xba7816bf, 0x8f01cfea, 0x414140de, 0x5dae2223, 0xb00361a3, 0x96177a9c, 0xb410ff61, 0xf20015ad]

  lemma AbcHash(block: seq<byte>)
    requires |block| == 64 && Rounds(V0, block, 64) == V64
    ensures Compress(H0, block) == ABC_HASH
  {
    hide Rounds;
  }

  lemma HashBytes()
    ensures WordsBytes(ABC_HASH) ==
      [0xba, 0x78, 0x16, 0xbf] + [0x8f, 0x01, 0xcf, 0xea] + [0x41, 0x41, 0x40, 0xde] + [0x5d, 0xae, 0x22, 0x23]
      + [0xb0, 0x03, 0x61, 0xa3] + [0x96, 0x17, 0x7a, 0x9c] + [0xb4, 0x10, 0xff, 0x61] + [0xf2, 0x00, 0x15, 0xad]
  {
    hide WordsBytes, WordBytes;
    var h := ABC_HASH;
    EightWords(h);
    WordIs(0xba7816bf, 0xba, 0x78, 0x16, 0xbf);
    WordIs(0x8f01cfea, 0x8f, 0x01, 0xcf, 0xea);
    WordIs(0x414140de, 0x41, 0x41, 0x40, 0xde);
    WordIs(0x5dae2223, 0x5d, 0xae, 0x22, 0x23);
    WordIs(0xb00361a3, 0xb0, 0x03, 0x61, 0xa3);
    WordIs(0x96177a9c, 0x96, 0x17, 0x7a, 0x9c);
    WordIs(0xb410ff61, 0xb4, 0x10, 0xff, 0x61);
    WordIs(0xf20015ad, 0xf2, 0x00, 0x15, 0xad);
  }

  lemma WordIs(w: Word, b0: byte, b1: byte, b2: byte, b3: byte)
    requires ((b0 as Word) << 24) | ((b1 as Word) << 16) | ((b2 as Word) << 8) | (b3 as Word) == w
    ensures WordBytes(w) == [b0, b1, b2, b3]
  {
  }

  lemma EightWords(h: seq<Word>)
    requires |h| == 8
    ensures WordsBytes(h) == WordBytes(h[0]) + WordBytes(h[1]) + WordBytes(h[2]) + WordBytes(h[3])
                             + WordBytes(h[4]) + WordBytes(h[5]) + WordBytes(h[6]) + WordBytes(h[7])
  {
    hide WordsBytes, WordBytes;
    LastWord(h, 7);
    LastWord(h, 6);
    LastWord(h, 5);
    LastWord(h, 4);
    LastWord(h, 3);
    LastWord(h, 2);
    LastWord(h, 1);
    LastWord(h, 0);
    NoWords();
    assert h[..8] == h && h[..0] == [];
    assert WordsBytes(h[..1]) == WordBytes(h[0]);
    hide *;
  }

  lemma NoWords()
    ensures WordsBytes([]) == []
  {
  }

  lemma LastWord(h: seq<Word>, i: nat)
    requires i < |h|
    ensures WordsBytes(h[..i + 1]) == WordsBytes(h[..i]) + WordBytes(h[i])
  {
    hide WordBytes;
    assert h[..i + 1][..i] == h[..i];
  }

  lemma OneBlock(block: seq<byte>)
    requires |block| == 64
    ensures HashBlocks(block) == Compress(H0, block)
  {
    HashBlocksSnoc([], block);
    assert [] + block == block;
  }
}
