/**
  Conditioning of a raw block: the raw words are cut into sub-blocks of
  MinInputNumWords words, each sub-block gets the next value of the serial
  counter as one extra word, and the SHA-256 digests of the stamped sub-blocks
  are concatenated into the conditioned block.  The serial word separates the
  hash inputs: no two stamped sub-blocks within 2^32 stamps are equal, however
  the raw entropy repeats.
 */
module Conditioning {
  import opened Words
  import opened Config
  import opened Sha256
  import opened Sha256Engine

  /** The serial counter after k more stamps, wrapping modulo 2^32. */
  function Advance(serial: Word, k: nat): Word
  {
    (serial + k) % 0x1_0000_0000
  }

  /** Stamps compose: k stamps and then m more are k + m stamps. */
  lemma AdvanceAdd(serial: Word, k: nat, m: nat)
    ensures Advance(Advance(serial, k), m) == Advance(serial, k + m)
  {
    var s := serial + k;
    ModUnique(s, 0x1_0000_0000, s / 0x1_0000_0000, s % 0x1_0000_0000);
    var t := s % 0x1_0000_0000 + m;
    var q := s / 0x1_0000_0000 + t / 0x1_0000_0000;
    assert serial + k + m == q * 0x1_0000_0000 + t % 0x1_0000_0000;
    ModUnique(serial + k + m, 0x1_0000_0000, q, t % 0x1_0000_0000);
  }

  /** Fewer than 2^32 stamps apart, two stamps differ. */
  lemma StampsDistinct(serial: Word, k1: nat, k2: nat)
    requires k1 < k2 && k2 - k1 < 0x1_0000_0000
    ensures Advance(serial, k1) != Advance(serial, k2)
  {
  }

  /** sha256_stampSerialNumber: the serial number goes into word
      MinInputNumWords of the block, and the counter moves on by one. */
  function Stamp(block: seq<Word>, serial: Word): (r: (seq<Word>, Word))
    requires |block| > MinInputNumWords
    ensures |r.0| == |block| && r.0[MinInputNumWords] == serial
    ensures forall i :: 0 <= i < |block| && i != MinInputNumWords ==> r.0[i] == block[i]
    ensures r.1 == Advance(serial, 1)
  {
    (block[MinInputNumWords := serial], Add(serial, 1))
  }

  /** The hash input of sub-block k: its raw words and the k-th stamp. */
  function SubBlockInput(raw: seq<Word>, k: nat, serial: Word): (m: seq<Word>)
    requires (k + 1) * MinInputNumWords <= |raw|
    ensures |m| == MinInputNumWords + 1 && |m| <= MaxMessageWords
  {
    raw[k * MinInputNumWords .. (k + 1) * MinInputNumWords] + [Advance(serial, k)]
  }

  /** Two sub-blocks stamped fewer than 2^32 stamps apart have different hash
      inputs, even from the same raw words. */
  lemma SubBlockInputsDistinct(raw1: seq<Word>, raw2: seq<Word>, k1: nat, k2: nat, serial: Word)
    requires (k1 + 1) * MinInputNumWords <= |raw1| && (k2 + 1) * MinInputNumWords <= |raw2|
    requires k1 < k2 && k2 - k1 < 0x1_0000_0000
    ensures SubBlockInput(raw1, k1, serial) != SubBlockInput(raw2, k2, serial)
  {
    StampsDistinct(serial, k1, k2);
    assert SubBlockInput(raw1, k1, serial)[MinInputNumWords] != SubBlockInput(raw2, k2, serial)[MinInputNumWords];
  }

  /** The conditioned words of the first n sub-blocks: their digests in order. */
  function Condition(raw: seq<Word>, serial: Word, n: nat): (r: seq<Word>)
    requires n * MinInputNumWords <= |raw|
    ensures |r| == 8 * n
  {
    if n == 0 then []
    else
      assert (n - 1) * MinInputNumWords <= n * MinInputNumWords;
      Condition(raw, serial, n - 1) + Hash(SubBlockInput(raw, n - 1, serial))
  }

  /** Digest k of the conditioned block sits at words 8k .. 8k+7: the
      sub-blocks fill the output with no gap and no overlap. */
  lemma {:induction false} ConditionAt(raw: seq<Word>, serial: Word, n: nat, k: nat)
    requires n * MinInputNumWords <= |raw| && k < n
    ensures (k + 1) * MinInputNumWords <= |raw|
    ensures Condition(raw, serial, n)[8 * k .. 8 * k + 8] == Hash(SubBlockInput(raw, k, serial))
  {
    hide Hash;
    MulMono(k + 1, n, MinInputNumWords);
    var prev := Condition(raw, serial, n - 1);
    assert Condition(raw, serial, n) == prev + Hash(SubBlockInput(raw, n - 1, serial));
    if k < n - 1 {
      ConditionAt(raw, serial, n - 1, k);
      assert Condition(raw, serial, n)[8 * k .. 8 * k + 8] == prev[8 * k .. 8 * k + 8];
    }
  }

  /** The sub-block loop of rcv_rnd_bytes: for every sub-block, copy its raw
      words into srcToHash, stamp it and hash the MinInputNumWords + 1 words
      into the next eight output words.  The scratch buffers (srcToHash and
      the schedule array) are passed through. */
  method ConditionRawBlock(raw: seq<Word>, serial: Word, srcToHash: seq<Word>, w: seq<Word>)
    returns (out: seq<Word>, serial': Word, srcToHash': seq<Word>, w': seq<Word>)
    requires |raw| == RndInBuffSize / WordSizeBytes
    requires |srcToHash| > MinInputNumWords && |w| == 64
    ensures out == Condition(raw, serial, NumSubBlocks)
    ensures serial' == Advance(serial, NumSubBlocks)
    ensures |srcToHash'| == |srcToHash| && |w'| == 64
  {
    hide Hash;
    BufferSizes();
    out, serial', srcToHash', w' := [], serial, srcToHash, w;
    var i := 0;
    ghost var k := 0;
    while i < RndInBuffSize / WordSizeBytes
      invariant k <= NumSubBlocks && i == k * MinInputNumWords
      invariant out == Condition(raw, serial, k)
      invariant serial' == Advance(serial, k)
      invariant |srcToHash'| == |srcToHash| && |w'| == 64
    {
      MulLess(k, NumSubBlocks, MinInputNumWords);
      assert (k + 1) * MinInputNumWords == i + MinInputNumWords <= |raw| by {
        MulMono(k + 1, NumSubBlocks, MinInputNumWords);
      }
      var j := 0;
      while j < MinInputNumWords
        invariant j <= MinInputNumWords && |srcToHash'| == |srcToHash|
        invariant srcToHash'[..j] == raw[i .. i + j]
      {
        srcToHash' := srcToHash'[j := raw[i + j]];
        j := j + 1;
      }
      var stamped := Stamp(srcToHash', serial');
      assert stamped.0[..MinInputNumWords + 1] == SubBlockInput(raw, k, serial) by {
        assert stamped.0[..MinInputNumWords] == srcToHash'[..MinInputNumWords];
      }
      AdvanceAdd(serial, k, 1);
      srcToHash', serial' := stamped.0, stamped.1;
      var ret, digest;
      ret, digest, w' := GenerateHash(srcToHash', (MinInputNumWords + 1) as Int16, [0, 0, 0, 0, 0, 0, 0, 0], w');
      out := out + digest;
      i := i + MinInputNumWords;
      k := k + 1;
    }
    MulLessEq(NumSubBlocks, k, MinInputNumWords);
  }
}
