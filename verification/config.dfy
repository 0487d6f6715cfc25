/**
  Build-time constants of the TL100/TL200 driver and the kernel error codes it
  returns.  The header that defines the driver's constants (tlrandom.h) is not
  part of this model: each constant it provides is declared here either with
  its evident value (word size, block size, digest size) or as an unspecified
  constant, whose subset type records any assumption the code relies on.
 */
module Config {
  import opened Words

  /** Kernel status codes as the driver uses them (negated on return). */
  const SUCCESS: int := 0
  const EPERM: int := 1
  const EFAULT: int := 14
  const ENODATA: int := 61
  const ETIMEDOUT: int := 110

  /** Bytes per 32-bit word (the driver casts byte buffers to uint32_t). */
  const WordSizeBytes: nat := 4

  /** Words per SHA-256 message block (512 bits). */
  const MaxDataBlockSizeWords: nat := 16

  /** Words per SHA-256 digest written to the output buffer per sub-block. */
  const OutNumWords: nat := 8

  /** Raw entropy words per sub-block; the stamped sub-block (one extra serial
      word) must fit the int16_t length of sha256_generateHash. */
  type InputWordCount = n: nat | 1 <= n <= 0x3FFF witness 1

  const MinInputNumWords: InputWordCount

  /** Number of sub-blocks per raw block.  The raw byte count travels in a
      16-bit field of the refill command, which bounds it. */
  type SubBlockCount = n: nat | 1 <= n && n * MinInputNumWords * 4 <= 0xFFFF witness 1

  const NumSubBlocks: SubBlockCount

  /** RND_IN_BUFFSIZE: raw bytes requested per refill, a whole number of sub-blocks. */
  const RndInBuffSize: nat := NumSubBlocks * MinInputNumWords * WordSizeBytes

  /** TRND_OUT_BUFFSIZE: conditioned bytes per refill, one digest per sub-block. */
  const TrndOutBuffSize: nat := NumSubBlocks * OutNumWords * WordSizeBytes

  /** numConsecFailThreshold: failures that latch a health test. */
  type Threshold = n: nat | 1 <= n witness 1

  const NumConsecFailThreshold: Threshold

  /** USB_READ_MAX_RETRY_CNT: command/response attempts per refill. */
  const UsbReadMaxRetryCnt: nat

  /** USB_BUFFER_SIZE: capacity of the bulk-in buffer. */
  type BufferSize = n: nat | 1 <= n witness 1

  const UsbBufferSize: BufferSize

  /** USB_READ_TIMEOUT_SECS: wall-clock budget of one response read. */
  const UsbReadTimeoutSecs: int

  /** testSeq1: the message of the SHA-256 self test, of which the self test
      hashes the first 11 words. */
  type TestMessage = s: seq<Word> | |s| >= 11 witness [0, 0, 0, 0, 0, 0, 0, 0, 0, 0, 0]

  const TestSeq1: TestMessage

  /** exptHashSeq1: the digest the self test expects, as eight words. */
  type Digest = s: seq<Word> | |s| == 8 witness [0, 0, 0, 0, 0, 0, 0, 0]

  const ExptHashSeq1: Digest

  /** The seed given to the serial counter at module load. */
  const InitialSerialNumber: Word := 413145

  /** Both buffer sizes are positive and word-aligned; the raw size fits the
      16-bit count of the refill command. */
  lemma BufferSizes()
    ensures RndInBuffSize == (NumSubBlocks * MinInputNumWords) * 4
    ensures RndInBuffSize / 4 == NumSubBlocks * MinInputNumWords
    ensures 4 <= RndInBuffSize <= 0xFFFF
    ensures TrndOutBuffSize == NumSubBlocks * 32
    ensures TrndOutBuffSize >= 32
  {
    var p := NumSubBlocks * MinInputNumWords;
    assert p >= 1 by {
      assert NumSubBlocks >= 1 && MinInputNumWords >= 1;
      MulAtLeast(NumSubBlocks, MinInputNumWords);
    }
    assert RndInBuffSize == p * 4;
  }
}
