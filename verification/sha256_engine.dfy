/**
  The driver's own SHA-256 code: sha256_hashCurrentBlock, sha256_generateHash
  and sha256_selfTest.  The driver keeps its hashing state in one global record
  (eight hash words, eight working variables and a 64-word schedule array);
  here the hash words and the schedule array are passed in and returned.  The
  methods follow the driver's loops and are proved to compute the reference
  SHA-256 of module Sha256.
 */
module Sha256Engine {
  import opened Sha256
  import opened Words
  import opened Config

  /** A C int16_t. */
  type Int16 = x: int | -0x8000 <= x < 0x8000

  /** Sequence facts used when a schedule array is filled one word at a time. */
  lemma UpdatePrefix<T>(w: seq<T>, t: nat, x: T)
    requires t < |w|
    ensures w[t := x][..t + 1] == w[..t] + [x]
    ensures w[t := x][..t] == w[..t]
  {
  }

  /** The first loop of sha256_hashCurrentBlock: words 16 .. 63 of the schedule
      array are computed from the block held in words 0 .. 15. */
  method ExpandSchedule(w: seq<Word>) returns (w': seq<Word>)
    requires |w| == 64
    ensures w' == Schedule(w[..16])
  {
    ghost var block := w[..16];
    w' := w;
    var t := 16;
    while t <= 63
      invariant 16 <= t <= 64 && |w'| == 64
      invariant Extend(w'[..t]) == Schedule(block)
    {
      var x := ScheduleWord(w', t);
      ScheduleWordPrefix(w', w'[..t], t);
      UpdatePrefix(w', t, x);
      w' := w'[t := x];
      t := t + 1;
    }
    assert w'[..64] == w';
  }

  /** The second loop of sha256_hashCurrentBlock: the 64 rounds over the
      schedule w, starting from the working variables v0. */
  method RunRounds(v0: Vars, w: seq<Word>) returns (v: Vars)
    requires |w| == 64
    ensures v == Rounds(v0, w)
  {
    hide Temp1, Temp2;
    var a, b, c, d, e, f, g, hh := v0.a, v0.b, v0.c, v0.d, v0.e, v0.f, v0.g, v0.h;
    var t := 0;
    while t <= 63
      invariant 0 <= t <= 64
      invariant Vars(a, b, c, d, e, f, g, hh) == Rounds(v0, w[..t])
    {
      assert w[..t + 1][..t] == w[..t];
      var tmp1 := Temp1(hh, e, f, g, K(t), w[t]);
      var tmp2 := Temp2(a, b, c);
      hh := g;
      g := f;
      f := e;
      e := Add(d, tmp1);
      d := c;
      c := b;
      b := a;
      a := Add(tmp1, tmp2);
      t := t + 1;
    }
    assert w[..64] == w;
    v := Vars(a, b, c, d, e, f, g, hh);
  }

  /** sha256_hashCurrentBlock: expands the block held in w[0..15] into the full
      schedule, runs the 64 rounds from the hash words and adds the result into
      them. */
  method HashCurrentBlock(h: seq<Word>, w: seq<Word>) returns (h': seq<Word>, w': seq<Word>)
    requires |h| == 8 && |w| == 64
    ensures w' == Schedule(w[..16])
    ensures h' == Compress(h, w[..16])
  {
    w' := ExpandSchedule(w);
    var v := RunRounds(Load(h), w');
    h' := Store(AddVars(Load(h), v));
  }

  /** One more block compressed into H(i) gives H(i+1). */
  lemma IntermediateStep(p: seq<Word>, i: nat)
    requires 16 * i + 16 <= |p|
    ensures Intermediate(p, i + 1) == Compress(Intermediate(p, i), Block(p, i))
  {
  }

  /** Word i of the padded message. */
  lemma PadAt(m: seq<Word>, i: nat)
    requires |m| <= MaxMessageWords && i < |Pad(m)|
    ensures Pad(m)[i] == if i < |m| then m[i]
                         else if i == |m| then Marker
                         else if i < |Pad(m)| - 1 then 0
                         else MessageSizeWord(|m|)
  {
    if i < |m| {
      assert Pad(m)[i] == Pad(m)[..|m|][i];
    }
  }

  /** The padded message of len words ends one block after the last whole block
      of the message when at most 13 words are left over, and two blocks after
      it otherwise. */
  lemma PadLength(m: seq<Word>)
    requires 0 < |m| <= MaxMessageWords
    ensures |Pad(m)| == 16 * (|m| / 16) + (if |m| % 16 <= 13 then 16 else 32)
  {
  }

  /** The number of blocks of the padded message: one more than the whole
      blocks of the message when at most 13 words are left over, two more
      otherwise. */
  lemma PadBlocks(m: seq<Word>)
    requires 0 < |m| <= MaxMessageWords
    ensures 16 * (|Pad(m)| / 16) == |Pad(m)|
    ensures |Pad(m)| / 16 == |m| / 16 + (if |m| % 16 <= 13 then 1 else 2)
  {
    PadLength(m);
  }

  /** n zero words. */
  function Zeros(n: nat): (z: seq<Word>)
    ensures |z| == n
  {
    if n == 0 then [] else Zeros(n - 1) + [0]
  }

  lemma {:induction false} ZerosAt(n: nat, i: nat)
    requires i < n
    ensures Zeros(n)[i] == 0
  {
    if i < n - 1 {
      ZerosAt(n - 1, i);
    }
  }

  /** A whole block of the message is a block of its padding. */
  lemma PadWholeBlock(src: seq<Word>, len: nat, i: nat, w: seq<Word>)
    requires len <= |src| && len <= MaxMessageWords && 16 * i + 16 <= len && |w| == 64
    requires w[..16] == src[16 * i .. 16 * i + 16]
    ensures w[..16] == Block(Pad(src[..len]), i)
  {
    var m := src[..len];
    forall j | 0 <= j < 16
      ensures w[j] == Block(Pad(m), i)[j]
    {
      assert w[j] == w[..16][j];
      PadAt(m, 16 * i + j);
    }
  }

  /** The block after the whole blocks of the message, which holds the r = len
      mod 16 words left over: v holds those words and the '1' bit; when r is at
      most 13, w is v with zeros and the bit length after them, and otherwise w
      is v with one more zero word written after the '1' bit. */
  lemma PadTailBlock(src: seq<Word>, len: nat, off: nat, r: nat, size: Word, v: seq<Word>, w: seq<Word>)
    requires len <= |src| && len <= MaxMessageWords && |v| == 64 && |w| == 64
    requires off == 16 * (len / 16) && r == len % 16 && off + r == len && 0 < r && size == MessageSizeWord(len)
    requires v[..r] == src[off .. off + r] && v[r] == Marker
    requires r <= 13 ==> w[..16] == v[..r + 1] + Zeros(15 - (r + 1)) + [size]
    requires 14 <= r ==> w == v[r + 1 := 0]
    ensures w[..16] == Block(Pad(src[..len]), len / 16)
  {
    var m := src[..len];
    PadLength(m);
    forall j | 0 <= j < 16
      ensures w[j] == Block(Pad(m), len / 16)[j]
    {
      PadAt(m, off + j);
      if j < r {
        assert v[j] == v[..r][j];
      }
      if r <= 13 {
        assert w[j] == w[..16][j];
        if j <= r {
          assert w[j] == v[..r + 1][j];
        } else if j < 15 {
          ZerosAt(15 - (r + 1), j - r - 1);
        }
      }
    }
  }

  /** The last block when the message leaves no room for the bit length: v
      holds the '1' bit in word 0 when the message filled its last block
      exactly (k = 1) and nothing the block keeps otherwise (k = 0); w is v
      with zeros and the bit length after its first k words. */
  lemma PadFinalBlock(src: seq<Word>, len: nat, size: Word, k: nat, v: seq<Word>, w: seq<Word>)
    requires len <= |src| && 0 < len <= MaxMessageWords && |v| == 64 && |w| == 64
    requires len % 16 == 0 || 14 <= len % 16
    requires size == MessageSizeWord(len)
    requires k == if len % 16 == 0 then 1 else 0
    requires len % 16 == 0 ==> v[0] == Marker
    requires w[..16] == v[..k] + Zeros(15 - k) + [size]
    ensures var last := if len % 16 == 0 then len / 16 else len / 16 + 1;
            16 * last + 16 == |Pad(src[..len])| && w[..16] == Block(Pad(src[..len]), last)
  {
    var m := src[..len];
    PadLength(m);
    var last := if len % 16 == 0 then len / 16 else len / 16 + 1;
    forall j | 0 <= j < 16
      ensures w[j] == Block(Pad(m), last)[j]
    {
      assert w[j] == w[..16][j];
      PadAt(m, 16 * last + j);
      if j < k {
        assert w[j] == v[..k][j];
      } else if j < 15 {
        ZerosAt(15 - k, j - k);
      }
    }
  }

  /** The copy loops of sha256_generateHash: words off .. off+n-1 of src into
      words 0 .. n-1 of the scratch array. */
  method CopyWords(src: seq<Word>, off: nat, n: nat, w: seq<Word>) returns (w': seq<Word>)
    requires off + n <= |src| && n <= 16 && |w| == 64
    ensures |w'| == 64
    ensures w'[..n] == src[off .. off + n]
  {
    w' := w;
    var ui8 := 0;
    while ui8 < n
      invariant 0 <= ui8 <= n && |w'| == 64
      invariant w'[..ui8] == src[off .. off + ui8]
    {
      UpdatePrefix(w', ui8, src[ui8 + off]);
      assert src[off .. off + ui8 + 1] == src[off .. off + ui8] + [src[ui8 + off]];
      w' := w'[ui8 := src[ui8 + off]];
      ui8 := ui8 + 1;
    }
  }

  /** The end of both final blocks in sha256_generateHash: words from .. 14 of
      the scratch array are cleared and word 15 gets the message size; the
      words before them are kept. */
  method FinishBlock(w: seq<Word>, from: nat, size: Word) returns (w': seq<Word>)
    requires from <= 14 && |w| == 64
    ensures |w'| == 64
    ensures w'[..16] == w[..from] + Zeros(15 - from) + [size]
  {
    w' := w;
    var ui8 := from;
    assert w'[..ui8] == w[..from] + Zeros(0);
    while ui8 < 16 - 2
      invariant from <= ui8 <= 14 && |w'| == 64
      invariant w'[..ui8] == w[..from] + Zeros(ui8 - from)
    {
      UpdatePrefix(w', ui8, 0);
      w' := w'[ui8 := 0];
      ui8 := ui8 + 1;
    }
    UpdatePrefix(w', ui8, 0);
    w' := w'[ui8 := 0];
    ui8 := ui8 + 1;
    UpdatePrefix(w', ui8, size);
    w' := w'[ui8 := size];
  }

  /** The body of the first loop of sha256_generateHash: block blockNum of the
      message is copied into the scratch array, which then holds block blockNum
      of the padded message. */
  method FillWholeBlock(src: seq<Word>, len: Int16, blockNum: nat, w: seq<Word>) returns (w': seq<Word>)
    requires 0 < len <= |src| && blockNum < len / 16 && |w| == 64
    ensures |w'| == 64 && w'[..16] == Block(Pad(src[..len]), blockNum)
  {
    var srcOffset := blockNum * 16;
    w' := CopyWords(src, srcOffset, 16, w);
    PadWholeBlock(src, len, blockNum, w');
  }

  /** The block holding the words left after the whole blocks: those words and
      the '1' bit, then zeros and the bit length when at most 13 words are left,
      or one zero word otherwise, in which case the bit length needs an
      additional block. */
  method FillRestBlock(src: seq<Word>, len: Int16, w: seq<Word>) returns (w': seq<Word>, needAdditionalBlock: bool)
    requires 0 < len <= |src| && 0 < len % 16 && |w| == 64
    ensures |w'| == 64
    ensures w'[..16] == Block(Pad(src[..len]), len / 16)
    ensures needAdditionalBlock <==> 14 <= len % 16
    ensures |Pad(src[..len])| == 16 * (len / 16) + (if needAdditionalBlock then 32 else 16)
  {
    var initialMessageSize := len * 8 * 4;
    var srcOffset := len / 16 * 16;
    var reminder := len % 16;
    w' := CopyWords(src, srcOffset, reminder, w);
    var ui8 := reminder;
    UpdatePrefix(w', ui8, Marker);
    w' := w'[ui8 := Marker];
    ghost var v := w';
    ui8 := ui8 + 1;
    if ui8 < 16 - 1 {
      w' := FinishBlock(w', ui8, initialMessageSize);
      needAdditionalBlock := false;
    } else {
      w' := w'[ui8 := 0];
      needAdditionalBlock := true;
    }
    PadTailBlock(src, len, srcOffset, reminder, initialMessageSize, v, w');
    PadLength(src[..len]);
  }

  /** The block of padding alone: the '1' bit unless the block before already
      holds it, zeros, and the bit length.  It is block i of the padded
      message, i being the number of blocks hashed before it, and the last. */
  method FillPaddingBlock(src: seq<Word>, len: Int16, needToAddOneMarker: bool, ghost i: nat, w: seq<Word>)
    returns (w': seq<Word>)
    requires 0 < len <= |src| && |w| == 64
    requires len % 16 == 0 || 14 <= len % 16
    requires needToAddOneMarker <==> len % 16 == 0
    requires i == len / 16 + (if len % 16 == 0 then 0 else 1)
    ensures |w'| == 64 && 16 * i + 16 == |Pad(src[..len])|
    ensures w'[..16] == Block(Pad(src[..len]), i)
  {
    var initialMessageSize := len * 8 * 4;
    w' := w;
    var ui8 := 0;
    if needToAddOneMarker {
      w' := w'[ui8 := Marker];
      ui8 := ui8 + 1;
    }
    ghost var v := w';
    w' := FinishBlock(w', ui8, initialMessageSize);
    PadFinalBlock(src, len, initialMessageSize, ui8, v, w');
  }

  /** Block i of a padded message p, held in the scratch array, hashed into
      H(i): the result is H(i+1). */
  method HashBlock(ghost p: seq<Word>, ghost i: nat, h: seq<Word>, w: seq<Word>) returns (h': seq<Word>, w': seq<Word>)
    requires 16 * i + 16 <= |p| && |w| == 64
    requires h == Intermediate(p, i) && w[..16] == Block(p, i)
    ensures |w'| == 64
    ensures h' == Intermediate(p, i + 1)
  {
    hide Compress;
    IntermediateStep(p, i);
    h', w' := HashCurrentBlock(h, w);
  }

  /** The first loop of sha256_generateHash: the whole 16-word blocks of the
      first len words of src, hashed in turn from the initial hash value; p is
      the padding of those words. */
  method HashWholeBlocks(src: seq<Word>, len: Int16, ghost p: seq<Word>, w: seq<Word>) returns (h: seq<Word>, w': seq<Word>)
    requires 0 < len <= |src| && |w| == 64 && p == Pad(src[..len])
    ensures |w'| == 64 && 16 * (len / 16) <= |p|
    ensures h == Intermediate(p, len / 16)
  {
    hide Compress;
    w' := w;
    h := IV;
    var numCompleteDataBlocks := len / 16;
    var blockNum := 0;
    while blockNum < numCompleteDataBlocks
      invariant 0 <= blockNum <= numCompleteDataBlocks && |w'| == 64
      invariant 16 * blockNum <= |p|
      invariant h == Intermediate(p, blockNum)
    {
      w' := FillWholeBlock(src, len, blockNum, w');
      h, w' := HashBlock(p, blockNum, h, w');
      blockNum := blockNum + 1;
    }
  }

  /** The rest of sha256_generateHash, from the hash value after the whole
      blocks: the block holding the words left over, if any, then the block of
      padding alone when the bit length did not fit there or no word was left.
      It ends with the hash value after all n blocks of the padding p. */
  method HashLastBlocks(src: seq<Word>, len: Int16, ghost p: seq<Word>, h: seq<Word>, w: seq<Word>)
    returns (h': seq<Word>, w': seq<Word>, ghost n: nat)
    requires 0 < len <= |src| && |w| == 64 && p == Pad(src[..len])
    requires 16 * (len / 16) <= |p| && h == Intermediate(p, len / 16)
    ensures |w'| == 64 && 16 * n == |p|
    ensures h' == Intermediate(p, n)
  {
    hide Compress;
    w' := w;
    h' := h;
    n := len / 16;
    var reminder := len % 16;
    var needAdditionalBlock := true;
    var needToAddOneMarker := true;
    if reminder > 0 {
      w', needAdditionalBlock := FillRestBlock(src, len, w');
      h', w' := HashBlock(p, n, h', w');
      n := n + 1;
      needToAddOneMarker := false;
    }
    if needAdditionalBlock {
      w' := FillPaddingBlock(src, len, needToAddOneMarker, n, w');
      h', w' := HashBlock(p, n, h', w');
      n := n + 1;
    }
  }

  /** The hash value after all n blocks of the padding is the digest. */
  lemma HashAfterAllBlocks(m: seq<Word>, n: nat, h: seq<Word>)
    requires |m| <= MaxMessageWords && 16 * n == |Pad(m)| && h == Intermediate(Pad(m), n)
    ensures h == Hash(m)
  {
    hide Compress;
  }

  /** sha256_generateHash: the SHA-256 digest of the first len words of src.  A
      length that is not positive is refused with -1 and leaves dst alone.  The
      whole blocks are copied into the scratch array and hashed in turn; the
      remaining words are followed by the '1' bit, zeros and the bit length,
      spilling into one more block when fewer than two words are left. */
  method GenerateHash(src: seq<Word>, len: Int16, dst: seq<Word>, w: seq<Word>)
    returns (ret: int, dst': seq<Word>, w': seq<Word>)
    requires len > 0 ==> len <= |src|
    requires |w| == 64
    ensures |w'| == 64
    ensures len <= 0 ==> ret == -1 && dst' == dst
    ensures len > 0 ==> ret == 0 && dst' == Hash(src[..len])
  {
    hide Compress;
    w' := w;
    if len <= 0 {
      return -1, dst, w';
    }
    ghost var p := Pad(src[..len]);
    var h;
    h, w' := HashWholeBlocks(src, len, p, w');
    ghost var n;
    h, w', n := HashLastBlocks(src, len, p, h, w');
    HashAfterAllBlocks(src[..len], n, h);
    dst' := h;
    ret := 0;
  }

  /** sha256_selfTest: the digest of the first 11 words of the test message,
      compared by memcmp with the expected digest over 8 bytes only, so over
      its first two words; the result is memcmp's. */
  method SelfTest(w: seq<Word>) returns (retVal: int, w': seq<Word>)
    requires |w| == 64
    ensures |w'| == 64
    ensures retVal == Memcmp(WordsToBytes(Hash(TestSeq1[..11])), WordsToBytes(ExptHashSeq1), 8)
    ensures retVal == 0 <==> Hash(TestSeq1[..11])[..2] == ExptHashSeq1[..2]
  {
    hide Compress;
    var results := [0, 0, 0, 0, 0, 0, 0, 0];
    retVal, results, w' := GenerateHash(TestSeq1, 11, results, w);
    if retVal == 0 {
      retVal := Memcmp(WordsToBytes(results), WordsToBytes(ExptHashSeq1), 8);
      LeadingBytes(results, ExptHashSeq1, 2);
    }
  }
}
