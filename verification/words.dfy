/**
  32-bit words and bytes as the driver uses them: uint32_t arithmetic wraps
  modulo 2^32, the bitwise operators act on the 32 bits of a word, and byte
  buffers are reinterpreted as uint32_t words in little-endian order (the
  byte order of the hosts the driver is built for).
 */
module Words {

  const TwoTo32: int := 0x1_0000_0000

  /** A uint8_t value. */
  type Byte = x: int | 0 <= x < 256

  /** A uint32_t value. */
  type Word = x: int | 0 <= x < TwoTo32

  function Pow2(n: nat): (r: nat)
    ensures r >= 1
  {
    if n == 0 then 1 else 2 * Pow2(n - 1)
  }

  lemma {:induction false} Pow2Add(a: nat, b: nat)
    ensures Pow2(a + b) == Pow2(a) * Pow2(b)
    decreases a
  {
    if a > 0 {
      Pow2Add(a - 1, b);
      assert Pow2(a + b) == 2 * Pow2(a - 1 + b);
    }
  }

  lemma Pow2Of32()
    ensures Pow2(32) == TwoTo32
  {
    assert Pow2(2) == 4;
    assert Pow2(4) == 16 by { Pow2Add(2, 2); }
    assert Pow2(8) == 256 by { Pow2Add(4, 4); }
    assert Pow2(16) == 65536 by { Pow2Add(8, 8); }
    Pow2Add(16, 16);
  }

  /** Bitwise exclusive or of two naturals. */
  function XorBits(x: nat, y: nat): nat
    decreases x + y
  {
    if x == 0 && y == 0 then 0 else 2 * XorBits(x / 2, y / 2) + (if x % 2 == y % 2 then 0 else 1)
  }

  /** Bitwise conjunction of two naturals. */
  function AndBits(x: nat, y: nat): nat
    decreases x + y
  {
    if x == 0 || y == 0 then 0 else 2 * AndBits(x / 2, y / 2) + (if x % 2 == 1 && y % 2 == 1 then 1 else 0)
  }

  /** Bit i of x, counting from the least significant bit 0. */
  function Bit(x: nat, i: nat): bool
  {
    if i == 0 then x % 2 == 1 else Bit(x / 2, i - 1)
  }

  lemma {:induction false} BitOfZero(i: nat)
    ensures !Bit(0, i)
  {
    if i > 0 {
      BitOfZero(i - 1);
    }
  }

  /** The bitwise operations on n-bit operands produce n-bit results. */
  lemma {:induction false} BitsBound(x: nat, y: nat, n: nat)
    requires x < Pow2(n) && y < Pow2(n)
    ensures XorBits(x, y) < Pow2(n) && AndBits(x, y) < Pow2(n)
  {
    if n > 0 {
      BitsBound(x / 2, y / 2, n - 1);
    }
  }

  /** Each bit of an exclusive or is the inequality of the operands' bits. */
  lemma {:induction false} XorBitsAt(x: nat, y: nat, i: nat)
    ensures Bit(XorBits(x, y), i) == (Bit(x, i) != Bit(y, i))
    decreases i
  {
    if x == 0 && y == 0 {
      BitOfZero(i);
    } else if i > 0 {
      XorBitsAt(x / 2, y / 2, i - 1);
      assert XorBits(x, y) / 2 == XorBits(x / 2, y / 2);
    }
  }

  /** Each bit of a conjunction is the conjunction of the operands' bits. */
  lemma {:induction false} AndBitsAt(x: nat, y: nat, i: nat)
    ensures Bit(AndBits(x, y), i) == (Bit(x, i) && Bit(y, i))
    decreases i
  {
    if x == 0 || y == 0 {
      BitOfZero(i);
    } else if i > 0 {
      AndBitsAt(x / 2, y / 2, i - 1);
      assert AndBits(x, y) / 2 == AndBits(x / 2, y / 2);
    }
  }

  /** Each bit of the complement of an n-bit value is the negated bit. */
  lemma {:induction false} NotBitAt(x: nat, n: nat, i: nat)
    requires x < Pow2(n) && i < n
    ensures Bit(Pow2(n) - 1 - x, i) == !Bit(x, i)
    decreases i
  {
    var p := Pow2(n - 1);
    assert Pow2(n) - 1 - x == 2 * (p - 1 - x / 2) + (1 - x % 2);
    if i > 0 {
      NotBitAt(x / 2, n - 1, i - 1);
    }
  }

  /** x ^ y on uint32_t. */
  function Xor(x: Word, y: Word): Word
  {
    Pow2Of32();
    BitsBound(x, y, 32);
    XorBits(x, y)
  }

  /** x & y on uint32_t. */
  function And(x: Word, y: Word): Word
  {
    Pow2Of32();
    BitsBound(x, y, 32);
    AndBits(x, y)
  }

  /** ~x on uint32_t. */
  function Not(x: Word): Word
  {
    0xFFFF_FFFF - x
  }

  /** A positive multiple of b is at least b. */
  lemma MulAtLeast(k: int, b: int)
    requires k >= 1 && b >= 0
    ensures k * b >= b
  {
    if k > 1 {
      MulAtLeast(k - 1, b);
      assert k * b == (k - 1) * b + b;
    }
  }

  /** Multiplication by a non-negative number is monotone. */
  lemma MulMono(a: int, b: int, c: int)
    requires a <= b && c >= 0
    ensures a * c <= b * c
  {
    if a < b {
      MulAtLeast(b - a, c);
      assert b * c - a * c == (b - a) * c;
    }
  }

  /** Multiplication by a non-negative number reflects strict order. */
  lemma MulLess(a: int, b: int, c: int)
    requires a * c < b * c && c >= 0
    ensures a < b
  {
    if a >= b {
      MulMono(b, a, c);
    }
  }

  /** Multiplication by a positive number reflects order. */
  lemma MulLessEq(a: int, b: int, c: int)
    requires a * c <= b * c && c >= 1
    ensures a <= b
  {
    if a > b {
      MulMono(b + 1, a, c);
    }
  }

  /** A positive factor cancels from both sides of an equation. */
  lemma MulCancel(a: int, b: int, c: int)
    requires c * a == c * b && c >= 1
    ensures a == b
  {
    MulLessEq(a, b, c);
    MulLessEq(b, a, c);
  }

  /** Quotient and remainder are unique. */
  lemma ModUnique(n: int, b: int, q: int, r: int)
    requires b >= 1 && n == q * b + r && 0 <= r < b
    ensures n % b == r && n / b == q
  {
    var q', r' := n / b, n % b;
    assert n == q' * b + r';
    if q' > q {
      assert q' * b - q * b == (q' - q) * b;
      MulAtLeast(q' - q, b);
    } else if q' < q {
      assert q * b - q' * b == (q - q') * b;
      MulAtLeast(q - q', b);
    }
  }

  /** Halving, then dividing by p, is dividing by 2p. */
  lemma DivHalf(x: nat, p: nat)
    requires p >= 1
    ensures x / (2 * p) == (x / 2) / p
  {
    var q, r := (x / 2) / p, (x / 2) % p;
    assert x == q * (2 * p) + (2 * r + x % 2);
    ModUnique(x, 2 * p, q, 2 * r + x % 2);
  }

  /** A value below 2^m has no bit set at m or above. */
  lemma {:induction false} BitAbove(x: nat, m: nat, j: nat)
    requires x < Pow2(m) && m <= j
    ensures !Bit(x, j)
    decreases m
  {
    if m == 0 {
      BitOfZero(j);
    } else {
      BitAbove(x / 2, m - 1, j - 1);
    }
  }

  /** x shifted right by the number of bits of the power of two d, the C
      operator >> on an unsigned operand. */
  function ShiftRight(x: nat, d: nat): nat
    requires d >= 1
  {
    x / d
  }

  /** Shifting right by n bits moves every bit n places down. */
  lemma {:induction false} BitDiv(x: nat, n: nat, i: nat)
    ensures Bit(ShiftRight(x, Pow2(n)), i) == Bit(x, i + n)
    decreases n
  {
    if n > 0 {
      DivHalf(x, Pow2(n - 1));
      BitDiv(x / 2, n - 1, i);
    }
  }

  /** The remainder modulo 2^n keeps the n lowest bits. */
  lemma {:induction false} BitMod(x: nat, n: nat, i: nat)
    requires i < n
    ensures Bit(x % Pow2(n), i) == Bit(x, i)
    decreases i
  {
    var p := Pow2(n - 1);
    var q, r := x / (2 * p), x % (2 * p);
    assert x == (q * p + r / 2) * 2 + r % 2;
    ModUnique(x, 2, q * p + r / 2, r % 2);
    if i > 0 {
      ModUnique(x / 2, p, q, r / 2);
      BitMod(x / 2, n - 1, i - 1);
    }
  }

  /** The bits of a + b * 2^k, for a below 2^k, are those of a below k and
      those of b from k on. */
  lemma {:induction false} BitSplit(a: nat, b: nat, k: nat, i: nat)
    requires a < Pow2(k)
    ensures Bit(a + b * Pow2(k), i) == if i < k then Bit(a, i) else Bit(b, i - k)
    decreases k
  {
    if k > 0 {
      var p := Pow2(k - 1);
      assert a + b * Pow2(k) == (a / 2 + b * p) * 2 + a % 2;
      ModUnique(a + b * Pow2(k), 2, a / 2 + b * p, a % 2);
      if i > 0 {
        BitSplit(a / 2, b, k - 1, i - 1);
      }
    }
  }

  /** x + y on uint32_t, wrapping modulo 2^32. */
  function Add(x: Word, y: Word): Word
  {
    if x + y < 0x1_0000_0000 then x + y else x + y - 0x1_0000_0000
  }

  /** The four bytes of a word, least significant first. */
  function WordToBytes(w: Word): (r: seq<Byte>)
    ensures |r| == 4
  {
    var w1 := w / 256;
    var w2 := w1 / 256;
    [w % 256, w1 % 256, w2 % 256, w2 / 256]
  }

  /** The word whose little-endian bytes are b0, b1, b2, b3. */
  function BytesToWord(b0: Byte, b1: Byte, b2: Byte, b3: Byte): Word
  {
    b0 + 256 * (b1 + 256 * (b2 + 256 * b3))
  }

  lemma SplitByte(r: Byte, q: nat)
    ensures (r + 256 * q) % 256 == r && (r + 256 * q) / 256 == q
  {
  }

  /** Splitting a word into bytes and joining them again gives the word back. */
  lemma WordRoundTrip(w: Word)
    ensures var b := WordToBytes(w); BytesToWord(b[0], b[1], b[2], b[3]) == w
  {
  }

  /** Joining four bytes into a word and splitting it gives the bytes back. */
  lemma BytesRoundTrip(b0: Byte, b1: Byte, b2: Byte, b3: Byte)
    ensures WordToBytes(BytesToWord(b0, b1, b2, b3)) == [b0, b1, b2, b3]
  {
    SplitByte(b0, b1 + 256 * (b2 + 256 * b3));
    SplitByte(b1, b2 + 256 * b3);
    SplitByte(b2, b3);
  }

  /** The byte image of a word sequence, as written through a uint32_t pointer. */
  function WordsToBytes(ws: seq<Word>): (r: seq<Byte>)
    ensures |r| == 4 * |ws|
  {
    if |ws| == 0 then [] else WordToBytes(ws[0]) + WordsToBytes(ws[1..])
  }

  /** The words read through a uint32_t pointer from a word-aligned byte buffer. */
  function BytesToWords(bs: seq<Byte>): (r: seq<Word>)
    requires |bs| % 4 == 0
    ensures |r| == |bs| / 4
  {
    if |bs| == 0 then [] else [BytesToWord(bs[0], bs[1], bs[2], bs[3])] + BytesToWords(bs[4..])
  }

  /** Word i of a buffer is built from bytes 4i .. 4i+3. */
  lemma {:induction false} BytesToWordsAt(bs: seq<Byte>, i: nat)
    requires |bs| % 4 == 0 && i < |bs| / 4
    ensures BytesToWords(bs)[i] == BytesToWord(bs[4 * i], bs[4 * i + 1], bs[4 * i + 2], bs[4 * i + 3])
    decreases i
  {
    if i > 0 {
      BytesToWordsAt(bs[4..], i - 1);
    }
  }

  /** Bytes 4i .. 4i+3 of the image are the bytes of word i. */
  lemma {:induction false} WordsToBytesAt(ws: seq<Word>, i: nat)
    requires i < |ws|
    ensures WordsToBytes(ws)[4 * i .. 4 * i + 4] == WordToBytes(ws[i])
    decreases i
  {
    if i > 0 {
      WordsToBytesAt(ws[1..], i - 1);
      assert WordsToBytes(ws) == WordToBytes(ws[0]) + WordsToBytes(ws[1..]);
    }
  }

  /** The byte image of a concatenation is the concatenation of the images. */
  lemma {:induction false} WordsToBytesAppend(a: seq<Word>, b: seq<Word>)
    ensures WordsToBytes(a + b) == WordsToBytes(a) + WordsToBytes(b)
    decreases |a|
  {
    if |a| == 0 {
      assert a + b == b;
    } else {
      assert (a + b)[0] == a[0];
      assert (a + b)[1..] == a[1..] + b;
      WordsToBytesAppend(a[1..], b);
    }
  }

  /** Bytes 4i .. 4j of the image are the image of words i .. j. */
  lemma {:induction false} WordsToBytesSlice(ws: seq<Word>, i: nat, j: nat)
    requires i <= j <= |ws|
    ensures WordsToBytes(ws)[4 * i .. 4 * j] == WordsToBytes(ws[i..j])
  {
    var pre, mid, post := ws[..i], ws[i..j], ws[j..];
    assert ws == pre + (mid + post);
    WordsToBytesAppend(pre, mid + post);
    WordsToBytesAppend(mid, post);
    var bp, bm, bq := WordsToBytes(pre), WordsToBytes(mid), WordsToBytes(post);
    assert WordsToBytes(ws) == bp + (bm + bq);
    assert |bp| == 4 * i && |bm| == 4 * (j - i);
    assert (bp + (bm + bq))[4 * i .. 4 * j] == bm;
  }

  /** Reading back the words of a written word sequence recovers it. */
  lemma {:induction false} WordsRoundTrip(ws: seq<Word>)
    ensures BytesToWords(WordsToBytes(ws)) == ws
  {
    if |ws| > 0 {
      var bs := WordsToBytes(ws);
      assert bs[4..] == WordsToBytes(ws[1..]);
      WordsRoundTrip(ws[1..]);
      WordRoundTrip(ws[0]);
    }
  }

  /** Writing back the words read from a word-aligned buffer recovers it. */
  lemma {:induction false} BytesWordsRoundTrip(bs: seq<Byte>)
    requires |bs| % 4 == 0
    ensures WordsToBytes(BytesToWords(bs)) == bs
    decreases |bs|
  {
    if |bs| > 0 {
      BytesWordsRoundTrip(bs[4..]);
      BytesRoundTrip(bs[0], bs[1], bs[2], bs[3]);
      assert bs == [bs[0], bs[1], bs[2], bs[3]] + bs[4..];
    }
  }

  /** memcmp of the kernel's string library over the first n bytes: the
      difference of the first pair of bytes that differ, or 0 when none does. */
  function Memcmp(a: seq<Byte>, b: seq<Byte>, n: nat): (r: int)
    requires n <= |a| && n <= |b|
    ensures r == 0 <==> a[..n] == b[..n]
    ensures -255 <= r <= 255
  {
    if n == 0 then 0
    else if a[0] != b[0] then a[0] as int - b[0] as int
    else
      var r := Memcmp(a[1..], b[1..], n - 1);
      assert a[..n] == [a[0]] + a[1..][..n - 1];
      assert b[..n] == [b[0]] + b[1..][..n - 1];
      r
  }

  /** A non-zero memcmp result is the difference at the first position where
      the buffers differ. */
  lemma {:induction false} MemcmpFirstDifference(a: seq<Byte>, b: seq<Byte>, n: nat)
    requires n <= |a| && n <= |b| && Memcmp(a, b, n) != 0
    ensures exists i :: 0 <= i < n && a[..i] == b[..i] && a[i] != b[i] && Memcmp(a, b, n) == a[i] as int - b[i] as int
  {
    if a[0] == b[0] {
      MemcmpFirstDifference(a[1..], b[1..], n - 1);
      var i :| 0 <= i < n - 1 && a[1..][..i] == b[1..][..i] && a[1..][i] != b[1..][i]
               && Memcmp(a[1..], b[1..], n - 1) == a[1..][i] as int - b[1..][i] as int;
      assert a[..i + 1] == [a[0]] + a[1..][..i];
      assert b[..i + 1] == [b[0]] + b[1..][..i];
    } else {
      assert a[..0] == b[..0];
    }
  }

  /** The first 4k bytes of two word buffers agree exactly when their first k
      words do. */
  lemma LeadingBytes(x: seq<Word>, y: seq<Word>, k: nat)
    requires k <= |x| && k <= |y|
    ensures WordsToBytes(x)[..4 * k] == WordsToBytes(y)[..4 * k] <==> x[..k] == y[..k]
  {
    WordsToBytesSlice(x, 0, k);
    WordsToBytesSlice(y, 0, k);
    assert WordsToBytes(x)[..4 * k] == WordsToBytes(x)[4 * 0 .. 4 * k];
    assert WordsToBytes(y)[..4 * k] == WordsToBytes(y)[4 * 0 .. 4 * k];
    assert x[0..k] == x[..k] && y[0..k] == y[..k];
    if WordsToBytes(x[..k]) == WordsToBytes(y[..k]) {
      WordsRoundTrip(x[..k]);
      WordsRoundTrip(y[..k]);
    }
  }
}
