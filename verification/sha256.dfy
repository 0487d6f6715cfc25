/**
  The SHA-256 secure hash algorithm of FIPS PUB 180-4, restricted to messages
  that are whole 32-bit words (the only messages the driver hashes).  This is
  the reference the driver's own hashing code is proved against.
 */
module Sha256 {
  import opened Words

  /** q < b whenever a * q < a * b. */
  lemma QuotientBound(a: nat, q: nat, b: nat)
    requires a >= 1 && a * q < a * b
    ensures q < b
  {
  }

  /** ROTR^n(x), section 3.2 of FIPS PUB 180-4: the word rotated right by n
      bits, its low n bits becoming its high n bits.  The rotation is given by
      the two powers d = 2^n and e = 2^(32 - n), written out at each use. */
  function RotR(x: Word, d: nat, e: nat): Word
    requires 2 <= d && 2 <= e && d * e == 0x1_0000_0000
  {
    QuotientBound(d, x / d, e);
    assert (x % d) * e <= (d - 1) * e;
    x / d + (x % d) * e
  }

  /** SHR^n(x), section 3.2 of FIPS PUB 180-4: the word shifted right by n
      bits, given d = 2^n. */
  function ShR(x: Word, d: nat): Word
    requires d >= 1
  {
    ShiftRight(x, d)
  }

  /** Ch(x, y, z), equation 4.2. */
  function Ch(x: Word, y: Word, z: Word): Word
  {
    Xor(And(x, y), And(Not(x), z))
  }

  /** Maj(x, y, z), equation 4.3. */
  function Maj(x: Word, y: Word, z: Word): Word
  {
    Xor(Xor(And(x, y), And(x, z)), And(y, z))
  }

  /** Upper-case Sigma 0, equation 4.4. */
  function BigSigma0(x: Word): Word
  {
    // ROTR^2, ROTR^13, ROTR^22
    Xor(Xor(RotR(x, 0x4, 0x4000_0000), RotR(x, 0x2000, 0x8_0000)), RotR(x, 0x40_0000, 0x400))
  }

  /** Upper-case Sigma 1, equation 4.5. */
  function BigSigma1(x: Word): Word
  {
    // ROTR^6, ROTR^11, ROTR^25
    Xor(Xor(RotR(x, 0x40, 0x400_0000), RotR(x, 0x800, 0x20_0000)), RotR(x, 0x200_0000, 0x80))
  }

  /** Lower-case sigma 0, equation 4.6. */
  function SmallSigma0(x: Word): Word
  {
    // ROTR^7, ROTR^18, SHR^3
    Xor(Xor(RotR(x, 0x80, 0x200_0000), RotR(x, 0x4_0000, 0x4000)), ShR(x, 0x8))
  }

  /** Lower-case sigma 1, equation 4.7. */
  function SmallSigma1(x: Word): Word
  {
    // ROTR^17, ROTR^19, SHR^10
    Xor(Xor(RotR(x, 0x2_0000, 0x8000), RotR(x, 0x8_0000, 0x2000)), ShR(x, 0x400))
  }

  /** Ch chooses, bit by bit, y where x is set and z where it is clear. */
  lemma ChChooses(x: Word, y: Word, z: Word, i: nat)
    requires i < 32
    ensures Bit(Ch(x, y, z), i) == if Bit(x, i) then Bit(y, i) else Bit(z, i)
  {
    Pow2Of32();
    XorBitsAt(And(x, y), And(Not(x), z), i);
    AndBitsAt(x, y, i);
    AndBitsAt(Not(x), z, i);
    NotBitAt(x, 32, i);
  }

  /** Maj takes, bit by bit, the majority of its three arguments. */
  lemma MajIsMajority(x: Word, y: Word, z: Word, i: nat)
    requires i < 32
    ensures Bit(Maj(x, y, z), i) == ((Bit(x, i) && Bit(y, i)) || (Bit(x, i) && Bit(z, i)) || (Bit(y, i) && Bit(z, i)))
  {
    XorBitsAt(Xor(And(x, y), And(x, z)), And(y, z), i);
    XorBitsAt(And(x, y), And(x, z), i);
    AndBitsAt(x, y, i);
    AndBitsAt(x, z, i);
    AndBitsAt(y, z, i);
  }

  /** Two factors of 2^32, both at least 2, the first 2^n: then 0 < n < 32. */
  lemma RotationAmount(n: nat, d: nat, e: nat)
    requires 2 <= d && 2 <= e && d * e == 0x1_0000_0000 && d == Pow2(n)
    ensures 1 <= n < 32
  {
    assert n != 0;
    if n >= 32 {
      hide Pow2;
      Pow2Of32();
      Pow2Add(32, n - 32);
      MulMono(1, Pow2(n - 32), TwoTo32);
      MulMono(2, e, d);
      assert false;
    }
  }

  /** 2^n * 2^(32 - n) == 2^32 pins down the two powers of a rotation. */
  lemma RotationPowers(n: nat, d: nat, e: nat)
    requires 2 <= d && 2 <= e && d * e == 0x1_0000_0000 && d == Pow2(n)
    ensures 1 <= n < 32 && e == Pow2(32 - n)
  {
    RotationAmount(n, d, e);
    hide Pow2;
    Pow2Of32();
    Pow2Add(n, 32 - n);
    MulCancel(e, Pow2(32 - n), d);
  }

  /** Bit i of ROTR^n(x) is bit i + n of x, counted modulo 32: every bit
      moves n places down and the n lowest wrap round to the top. */
  lemma RotRBits(x: Word, n: nat, d: nat, e: nat, i: nat)
    requires 2 <= d && 2 <= e && d * e == 0x1_0000_0000 && d == Pow2(n) && i < 32
    ensures Bit(RotR(x, d, e), i) == Bit(x, (i + n) % 32)
  {
    hide Pow2, Bit;
    RotationPowers(n, d, e);
    var a, b := x / d, x % d;
    assert a * d <= x;
    MulLess(a, e, d);
    assert RotR(x, d, e) == a + b * Pow2(32 - n);
    BitSplit(a, b, 32 - n, i);
    if i < 32 - n {
      BitDiv(x, n, i);
      assert Bit(RotR(x, d, e), i) == Bit(a, i) == Bit(x, i + n);
    } else {
      BitMod(x, n, i + n - 32);
      assert Bit(RotR(x, d, e), i) == Bit(b, i + n - 32) == Bit(x, i + n - 32);
    }
  }

  /** Bit i of SHR^n(x) is bit i + n of x, and clear when that is past the
      top bit. */
  lemma ShRBits(x: Word, n: nat, d: nat, i: nat)
    requires d == Pow2(n) && i < 32
    ensures Bit(ShR(x, d), i) == (i + n < 32 && Bit(x, i + n))
  {
    BitDiv(x, n, i);
    if i + n >= 32 {
      Pow2Of32();
      BitAbove(x, 32, i + n);
    }
  }

  /** The powers of two the round functions shift by. */
  lemma SmallPowers()
    ensures Pow2(2) == 0x4 && Pow2(3) == 0x8 && Pow2(6) == 0x40 && Pow2(7) == 0x80
    ensures Pow2(10) == 0x400 && Pow2(11) == 0x800 && Pow2(13) == 0x2000
    ensures Pow2(17) == 0x2_0000 && Pow2(18) == 0x4_0000 && Pow2(19) == 0x8_0000
    ensures Pow2(22) == 0x40_0000 && Pow2(25) == 0x200_0000
  {
    assert Pow2(3) == 8 && Pow2(6) == 0x40 && Pow2(7) == 0x80;
    Pow2Add(7, 3);
    Pow2Add(7, 4);
    Pow2Add(7, 6);
    Pow2Add(10, 7);
    Pow2Add(10, 8);
    Pow2Add(10, 9);
    Pow2Add(11, 11);
    Pow2Add(11, 14);
  }

  /** Bit i of Sigma0(x) is the parity of bits i + 2, i + 13 and i + 22 of
      x, modulo 32. */
  lemma BigSigma0Bits(x: Word, i: nat)
    requires i < 32
    ensures Bit(BigSigma0(x), i) == ((Bit(x, (i + 2) % 32) != Bit(x, (i + 13) % 32)) != Bit(x, (i + 22) % 32))
  {
    SmallPowers();
    var a, b, c := RotR(x, 0x4, 0x4000_0000), RotR(x, 0x2000, 0x8_0000), RotR(x, 0x40_0000, 0x400);
    XorBitsAt(Xor(a, b), c, i);
    XorBitsAt(a, b, i);
    RotRBits(x, 2, 0x4, 0x4000_0000, i);
    RotRBits(x, 13, 0x2000, 0x8_0000, i);
    RotRBits(x, 22, 0x40_0000, 0x400, i);
  }

  /** Bit i of Sigma1(x) is the parity of bits i + 6, i + 11 and i + 25 of
      x, modulo 32. */
  lemma BigSigma1Bits(x: Word, i: nat)
    requires i < 32
    ensures Bit(BigSigma1(x), i) == ((Bit(x, (i + 6) % 32) != Bit(x, (i + 11) % 32)) != Bit(x, (i + 25) % 32))
  {
    SmallPowers();
    var a, b, c := RotR(x, 0x40, 0x400_0000), RotR(x, 0x800, 0x20_0000), RotR(x, 0x200_0000, 0x80);
    XorBitsAt(Xor(a, b), c, i);
    XorBitsAt(a, b, i);
    RotRBits(x, 6, 0x40, 0x400_0000, i);
    RotRBits(x, 11, 0x800, 0x20_0000, i);
    RotRBits(x, 25, 0x200_0000, 0x80, i);
  }

  /** Bit i of sigma0(x) is the parity of bits i + 7 and i + 18 of x, modulo
      32, and bit i + 3 when that is below 32. */
  lemma SmallSigma0Bits(x: Word, i: nat)
    requires i < 32
    ensures Bit(SmallSigma0(x), i) == ((Bit(x, (i + 7) % 32) != Bit(x, (i + 18) % 32)) != (i + 3 < 32 && Bit(x, i + 3)))
  {
    SmallPowers();
    var a, b, c := RotR(x, 0x80, 0x200_0000), RotR(x, 0x4_0000, 0x4000), ShR(x, 0x8);
    XorBitsAt(Xor(a, b), c, i);
    XorBitsAt(a, b, i);
    RotRBits(x, 7, 0x80, 0x200_0000, i);
    RotRBits(x, 18, 0x4_0000, 0x4000, i);
    ShRBits(x, 3, 0x8, i);
  }

  /** Bit i of sigma1(x) is the parity of bits i + 17 and i + 19 of x,
      modulo 32, and bit i + 10 when that is below 32. */
  lemma SmallSigma1Bits(x: Word, i: nat)
    requires i < 32
    ensures Bit(SmallSigma1(x), i) == ((Bit(x, (i + 17) % 32) != Bit(x, (i + 19) % 32)) != (i + 10 < 32 && Bit(x, i + 10)))
  {
    SmallPowers();
    var a, b, c := RotR(x, 0x2_0000, 0x8000), RotR(x, 0x8_0000, 0x2000), ShR(x, 0x400);
    XorBitsAt(Xor(a, b), c, i);
    XorBitsAt(a, b, i);
    RotRBits(x, 17, 0x2_0000, 0x8000, i);
    RotRBits(x, 19, 0x8_0000, 0x2000, i);
    ShRBits(x, 10, 0x400, i);
  }

  /** The constants K0 .. K63 of section 4.2.2. */
  function K(t: nat): Word
    requires t < 64
  {
    match t
    case 0 => 0x428a2f98
    case 1 => 0x71374491
    case 2 => 0xb5c0fbcf
    case 3 => 0xe9b5dba5
    case 4 => 0x3956c25b
    case 5 => 0x59f111f1
    case 6 => 0x923f82a4
    case 7 => 0xab1c5ed5
    case 8 => 0xd807aa98
    case 9 => 0x12835b01
    case 10 => 0x243185be
    case 11 => 0x550c7dc3
    case 12 => 0x72be5d74
    case 13 => 0x80deb1fe
    case 14 => 0x9bdc06a7
    case 15 => 0xc19bf174
    case 16 => 0xe49b69c1
    case 17 => 0xefbe4786
    case 18 => 0x0fc19dc6
    case 19 => 0x240ca1cc
    case 20 => 0x2de92c6f
    case 21 => 0x4a7484aa
    case 22 => 0x5cb0a9dc
    case 23 => 0x76f988da
    case 24 => 0x983e5152
    case 25 => 0xa831c66d
    case 26 => 0xb00327c8
    case 27 => 0xbf597fc7
    case 28 => 0xc6e00bf3
    case 29 => 0xd5a79147
    case 30 => 0x06ca6351
    case 31 => 0x14292967
    case 32 => 0x27b70a85
    case 33 => 0x2e1b2138
    case 34 => 0x4d2c6dfc
    case 35 => 0x53380d13
    case 36 => 0x650a7354
    case 37 => 0x766a0abb
    case 38 => 0x81c2c92e
    case 39 => 0x92722c85
    case 40 => 0xa2bfe8a1
    case 41 => 0xa81a664b
    case 42 => 0xc24b8b70
    case 43 => 0xc76c51a3
    case 44 => 0xd192e819
    case 45 => 0xd6990624
    case 46 => 0xf40e3585
    case 47 => 0x106aa070
    case 48 => 0x19a4c116
    case 49 => 0x1e376c08
    case 50 => 0x2748774c
    case 51 => 0x34b0bcb5
    case 52 => 0x391c0cb3
    case 53 => 0x4ed8aa4a
    case 54 => 0x5b9cca4f
    case 55 => 0x682e6ff3
    case 56 => 0x748f82ee
    case 57 => 0x78a5636f
    case 58 => 0x84c87814
    case 59 => 0x8cc70208
    case 60 => 0x90befffa
    case 61 => 0xa4506ceb
    case 62 => 0xbef9a3f7
    case 63 => 0xc67178f2
    case _ => 0
  }

  /** The initial hash value H(0) of section 5.3.3. */
  const IV: seq<Word> := [
    0x6a09e667, 0xbb67ae85, 0x3c6ef372, 0xa54ff53a, 0x510e527f, 0x9b05688c, 0x1f83d9ab, 0x5be0cd19
  ]

  /** The first eight primes. */
  const FirstPrimes: seq<nat> := [2, 3, 5, 7, 11, 13, 17, 19]

  /** The integer part of the square root of n, searched upwards from k. */
  function FloorSqrt(n: nat, k: nat): (r: nat)
    requires k * k <= n
    ensures r * r <= n < (r + 1) * (r + 1)
    decreases n - k
  {
    if (k + 1) * (k + 1) <= n then FloorSqrt(n, k + 1) else k
  }

  /** w is the first 32 bits of the fractional part of the square root of p:
      the integer part of sqrt(p) * 2^32 is that of sqrt(p) followed by the
      32 bits of w. */
  predicate IsFractionalRootWord(p: nat, w: nat)
  {
    var s := FloorSqrt(p, 0) * 0x1_0000_0000 + w;
    w < 0x1_0000_0000 && s * s <= p * 0x1_0000_0000_0000_0000 < (s + 1) * (s + 1)
  }

  /** H(0) is the fractional square-root words of the first eight primes,
      as section 5.3.3 derives it. */
  lemma IVIsFractionalRoots()
    ensures |IV| == |FirstPrimes|
    ensures forall i :: 0 <= i < 8 ==> IsFractionalRootWord(FirstPrimes[i], IV[i])
  {
  }

  /** The schedule recurrence of step 1 of section 6.2.2, applied to the words
      t-2, t-7, t-15 and t-16. */
  function Mix(w2: Word, w7: Word, w15: Word, w16: Word): Word
  {
    Add(Add(Add(SmallSigma1(w2), w7), SmallSigma0(w15)), w16)
  }

  /** Schedule word t (16 <= t) computed from the 16 words before it. */
  function ScheduleWord(w: seq<Word>, t: nat): Word
    requires 16 <= t <= |w|
  {
    Mix(w[t - 2], w[t - 7], w[t - 15], w[t - 16])
  }

  /** A schedule word depends only on the words before it. */
  lemma ScheduleWordPrefix(w: seq<Word>, p: seq<Word>, t: nat)
    requires 16 <= t == |p| <= |w| && w[..t] == p
    ensures ScheduleWord(w, t) == ScheduleWord(p, t)
  {
    assert w[t - 2] == p[t - 2] && w[t - 7] == p[t - 7];
    assert w[t - 15] == p[t - 15] && w[t - 16] == p[t - 16];
  }

  /** The first words w of a message schedule completed to all 64 words, each
      new word computed from the words before it. */
  function Extend(w: seq<Word>): (r: seq<Word>)
    requires 16 <= |w| <= 64
    ensures |r| == 64 && r[..|w|] == w
    decreases 64 - |w|
  {
    if |w| == 64 then w
    else
      var r := Extend(w + [ScheduleWord(w, |w|)]);
      assert r[..|w|] == r[..|w| + 1][..|w|];
      r
  }

  /** The message schedule W0 .. W63 of one block, step 1 of section 6.2.2. */
  function Schedule(block: seq<Word>): (w: seq<Word>)
    requires |block| == 16
    ensures |w| == 64
  {
    Extend(block)
  }

  /** Every word a completion adds is the recurrence applied to the words before it. */
  lemma {:induction false} ExtendAt(w: seq<Word>, t: nat)
    requires 16 <= |w| <= t < 64
    ensures Extend(w)[t] == ScheduleWord(Extend(w), t)
    decreases 64 - |w|
  {
    var x := ScheduleWord(w, |w|);
    var r := Extend(w + [x]);
    assert Extend(w) == r;
    if t == |w| {
      assert r[..t + 1] == w + [x];
      assert r[t] == r[..t + 1][t];
      ScheduleWordPrefix(r, w, t);
    } else {
      ExtendAt(w + [x], t);
    }
  }

  /** The schedule satisfies the recurrence of section 6.2.2: the block itself,
      then each word from its predecessors. */
  lemma ScheduleRecurrence(block: seq<Word>)
    requires |block| == 16
    ensures Schedule(block)[..16] == block
    ensures forall t {:trigger ScheduleWord(Schedule(block), t)} :: 16 <= t < 64 ==>
      Schedule(block)[t] == ScheduleWord(Schedule(block), t)
  {
    forall t | 16 <= t < 64 {
      ExtendAt(block, t);
    }
  }

  /** The eight working variables a .. h. */
  datatype Vars = Vars(a: Word, b: Word, c: Word, d: Word, e: Word, f: Word, g: Word, h: Word)

  /** T1 of step 3 of section 6.2.2, from h, e, f, g, Kt and Wt. */
  function Temp1(h: Word, e: Word, f: Word, g: Word, kt: Word, wt: Word): Word
  {
    Add(Add(Add(Add(h, BigSigma1(e)), Ch(e, f, g)), kt), wt)
  }

  /** T2 of step 3 of section 6.2.2, from a, b and c. */
  function Temp2(a: Word, b: Word, c: Word): Word
  {
    Add(BigSigma0(a), Maj(a, b, c))
  }

  /** One of the 64 rounds of step 3 of section 6.2.2. */
  function Round(v: Vars, kt: Word, wt: Word): Vars
  {
    var t1 := Temp1(v.h, v.e, v.f, v.g, kt, wt);
    var t2 := Temp2(v.a, v.b, v.c);
    Vars(Add(t1, t2), v.a, v.b, v.c, Add(v.d, t1), v.e, v.f, v.g)
  }

  /** The working variables after one round for each word of w, in order:
      rounds 0 .. |w|-1. */
  function Rounds(v: Vars, w: seq<Word>): Vars
    requires |w| <= 64
  {
    if |w| == 0 then v else Round(Rounds(v, w[..|w| - 1]), K(|w| - 1), w[|w| - 1])
  }

  /** Working variables initialised from a hash value, step 2 of section 6.2.2. */
  function Load(h: seq<Word>): Vars
    requires |h| == 8
  {
    Vars(h[0], h[1], h[2], h[3], h[4], h[5], h[6], h[7])
  }

  /** The eight words of a set of working variables, in order. */
  function Store(v: Vars): (r: seq<Word>)
    ensures |r| == 8
  {
    [v.a, v.b, v.c, v.d, v.e, v.f, v.g, v.h]
  }

  /** Word-wise sum of two sets of working variables, step 4 of section 6.2.2. */
  function AddVars(x: Vars, y: Vars): Vars
  {
    Vars(Add(x.a, y.a), Add(x.b, y.b), Add(x.c, y.c), Add(x.d, y.d),
         Add(x.e, y.e), Add(x.f, y.f), Add(x.g, y.g), Add(x.h, y.h))
  }

  /** The intermediate hash value after one message block, steps 1-4 of section 6.2.2. */
  function Compress(h: seq<Word>, block: seq<Word>): (r: seq<Word>)
    requires |h| == 8 && |block| == 16
    ensures |r| == 8
  {
    Store(AddVars(Load(h), Rounds(Load(h), Schedule(block))))
  }

  /** The '1' bit appended after the message, as a word. */
  const Marker: Word := 0x8000_0000

  /** Messages of at most this many words are hashed (the driver's int16_t length). */
  const MaxMessageWords: nat := 0x7FFF

  /** The low 32 bits of the message length in bits. */
  function MessageSizeWord(n: nat): Word
    requires n <= MaxMessageWords
  {
    n * 32
  }

  /** Zero words inserted so that the padded message fills whole blocks. */
  function PadZeros(n: nat): nat
  {
    16 * ((n + 18) / 16) - n - 3
  }

  /** The padded message of section 5.1.1 for a message of whole words: the
      message, the '1' bit, zeros, and the 64-bit length (whose high word is 0). */
  function Pad(m: seq<Word>): (p: seq<Word>)
    requires |m| <= MaxMessageWords
    ensures |p| == 16 * ((|m| + 18) / 16)
    ensures |p| % 16 == 0 && |p| >= 16
    ensures p[..|m|] == m
    ensures p[|m|] == Marker
    ensures forall i :: |m| < i < |p| - 1 ==> p[i] == 0
    ensures p[|p| - 1] == MessageSizeWord(|m|)
  {
    m + [Marker] + seq(PadZeros(|m|), _ => 0) + [0, MessageSizeWord(|m|)]
  }

  /** The padding is the shortest one section 5.1.1 allows: any whole number of
      blocks with room for the message, the '1' bit and the 64-bit length is at
      least as long. */
  lemma PadIsMinimal(m: seq<Word>, blocks: nat)
    requires |m| <= MaxMessageWords && 16 * blocks >= |m| + 3
    ensures |m| + 3 <= |Pad(m)| <= 16 * blocks
  {
  }

  /** Message block M(i) of a padded message: words 16i .. 16i+15. */
  function Block(p: seq<Word>, i: nat): (b: seq<Word>)
    requires 16 * i + 16 <= |p|
    ensures |b| == 16
  {
    p[16 * i .. 16 * i + 16]
  }

  /** The intermediate hash value H(i) after the first i blocks of a padded
      message, section 6.2.2: H(0) is the initial value and each block is
      compressed into the previous value. */
  function Intermediate(p: seq<Word>, i: nat): (r: seq<Word>)
    requires 16 * i <= |p|
    ensures |r| == 8
    decreases i, 0
  {
    if i == 0 then IV else AfterBlock(p, i - 1)
  }

  /** The intermediate hash value H(i+1): block i compressed into H(i). */
  function AfterBlock(p: seq<Word>, i: nat): (r: seq<Word>)
    requires 16 * i + 16 <= |p|
    ensures |r| == 8
    decreases i, 1
  {
    Compress(Intermediate(p, i), Block(p, i))
  }

  /** SHA-256 of a message of whole words, section 6.2: H(N) for the N blocks
      of the padded message. */
  function Hash(m: seq<Word>): (r: seq<Word>)
    requires |m| <= MaxMessageWords
    ensures |r| == 8
  {
    var p := Pad(m);
    Intermediate(p, |p| / 16)
  }
}
