# TL100/TL200 TRNG driver core, modelled in Dafny

A model of the logic inside the Linux kernel driver for the TL100/TL200 USB
true random number generators (`tlrandomfix.c`). The driver reads raw entropy
from the device and conditions it with SHA-256, one stamped sub-block at a
time. It checks the conditioned bytes with two continuous health tests, a
repetition count test and an adaptive proportion test. It then serves those
bytes to readers of its character device.

The model covers five groups:

- **SHA-256.** The conditioning hash follows FIPS PUB 180-4:
  - the round functions of section 4.1.2 and the constants of section 4.2.2;
  - the initial hash value of section 5.3.3 and the padding of section 5.1.1;
  - the schedule and compression of section 6.2.2.
  - `Sha256` is a functional reference definition. `Sha256Engine` follows the
    driver's loops (`sha256_generateHash`, `sha256_hashCurrentBlock`,
    `sha256_selfTest`) and proves that they compute the reference.
- **Health tests.** `RepetitionCount` (`rct_*`) and `AdaptiveProportion`
  (`apt_*`) are record-valued step functions. Each has a sticky status latch
  and a closed-form description of what a run of samples does to it.
- **Conditioning.** `Conditioning` cuts a raw block into sub-blocks, stamps
  each with the 32-bit serial counter and hashes it. No two stamped
  sub-blocks fewer than 2^32 stamps apart are equal.
- **Transport.** `Transport` models the USB transfers as scripts of outcomes:
  - the header stripping and time-out of `chip_read_data`;
  - the retry and status-byte policy of `snd_rcv_usb_data`;
  - the 3-byte refill command.
- **Refill and read.** `Entropy` models:
  - the refill (`rcv_rnd_bytes`) as a functional specification and as the
    driver's method;
  - `get_entropy_bytes` and the read loop of `device_read`;
  - the start-up part of `init_tlrandom`.

`Words` holds 32-bit word and byte arithmetic. `Config` holds the build-time
constants, the constants of the header `tlrandom.h`. That header is not part
of this model. Each constant it provides is declared with its evident value
(16-word SHA blocks, 8-word digests, 4-byte words). Otherwise it is an
unspecified constant. When the code relies on a property of it, its type
records that property:

- `MIN_INPUT_NUM_WORDS` is 1..0x3FFF, so a stamped sub-block fits the
  `int16_t` length of `sha256_generateHash`;
- there is at least one sub-block;
- the raw byte count fits the 16-bit field of the refill command;
- the failure threshold is at least 1;
- the bulk-in buffer (`USB_BUFFER_SIZE`) holds at least one byte;
- the self-test message `testSeq1` has at least the 11 words the self test
  hashes, and the expected digest `exptHashSeq1` has 8 words.

The retry count `USB_READ_MAX_RETRY_CNT` is any natural number. The read
time-out `USB_READ_TIMEOUT_SECS` is any integer.

`RND_IN_BUFFSIZE` is defined as the number of sub-blocks times
`MIN_INPUT_NUM_WORDS` words of 4 bytes. So the model assumes that the raw
byte count is an exact multiple of `MIN_INPUT_NUM_WORDS * 4`. The sub-block
loop of `rcv_rnd_bytes` (tlrandomfix.c:343) relies on that. The USB packet
size `bulk_in_size` is not a constant: the driver takes it from the bulk-in
endpoint when it probes the device (tlrandomfix.c:114). The model only
requires it to be positive (`Entropy.Valid`).

`TRND_OUT_BUFFSIZE` is also defined rather than left open. It is the number
of sub-blocks times 8 digest words of 4 bytes. The conditioning loop
(tlrandomfix.c:343-350) writes one 8-word digest per sub-block into
`buffTRndOut`. The driver then tests and serves `TRND_OUT_BUFFSIZE` bytes of
it (tlrandomfix.c:266, 302, 352). So the model assumes the loop fills the
buffer exactly. A larger buffer would leave stale bytes to be tested and
served, and a smaller one would overflow; neither is modelled.

Byte buffers and word buffers are related by a little-endian conversion. This
is what the host-endian casts of `rcv_rnd_bytes` and `sha256_selfTest` do on a
little-endian host; big-endian hosts are not modelled.

Three behaviours of the code are easy to miss:

- **Header stripping.** `chip_read_data` drops two bytes at the start of
  every USB packet, not one: the extra `i++` skips the byte after the header
  byte as well. So exactly the bytes whose index modulo the packet size is at
  least 2 are kept (`Transport.Kept`).
- **Adaptive proportion window.** `apt_sample` counts cycle failures
  toward a consecutive-failure threshold. The cycle failures, the threshold
  and their restart are the driver's own design around the cutoff test of
  section 4.4.2 of NIST SP 800-90B. A window's repetition counter is not
  restarted once it exceeds the cutoff. So every further occurrence of the
  reference byte in the same window counts as one more cycle failure
  (`AdaptiveProportion.RunWindow`), where one failure per window would be
  the evident reading of a per-window count.
- **Failed blocks are installed.** `rcv_rnd_bytes` resets the cursor before
  it judges the health tests. A block that failed a test is installed all the
  same, and the next read serves it (`Entropy.FailedBlockIsServed`).

## Model

| member | source | states |
|---|---|---|
| Sha256.RotRBits | tlrandomfix.c:917 | bit i of ROTR^n(x) is bit (i + n) mod 32 of x. The rotation is taken as FIPS 180-4 section 3.2 defines it, because the ROTR macro itself is in tlrandom.h |
| Sha256.ShRBits | tlrandomfix.c:939 | bit i of x >> n is bit i + n of x, and 0 when i + n >= 32 |
| Sha256.BigSigma0Bits | tlrandomfix.c:916-918 | each bit of Sum0(x) is the exclusive or of x's bits 2, 13 and 22 places higher, counted modulo 32 (FIPS 180-4 equation 4.4) |
| Sha256.BigSigma1Bits | tlrandomfix.c:927-929 | each bit of Sum1(x) is the exclusive or of x's bits 6, 11 and 25 places higher, modulo 32 (equation 4.5) |
| Sha256.SmallSigma0Bits | tlrandomfix.c:938-940 | each bit of sigma0(x) is the exclusive or of x's bits 7 and 18 places higher, modulo 32, and of the bit 3 places higher when there is one (equation 4.6) |
| Sha256.SmallSigma1Bits | tlrandomfix.c:949-951 | each bit of sigma1(x) is the exclusive or of x's bits 17 and 19 places higher, modulo 32, and of the bit 10 places higher when there is one (equation 4.7) |
| Sha256.IVIsFractionalRoots | tlrandomfix.c:705-715 | the eight initial hash words are the first 32 bits of the fractional parts of the square roots of the first eight primes (FIPS 180-4 section 5.3.3) |
| Sha256.ChChooses | tlrandomfix.c:892-894 | each bit of Ch(x, y, z) is y's bit where x's bit is set and z's bit where it is clear (FIPS 180-4 equation 4.2) |
| Sha256.MajIsMajority | tlrandomfix.c:905-907 | each bit of Maj(x, y, z) is the majority of the three arguments' bits (equation 4.3) |
| Sha256.Pad | tlrandomfix.c:760-823 | the padded message starts with the message, then the 0x80000000 marker word, then zeros, and ends with the bit length; its length is 16 * ((len + 18) / 16) words, a positive multiple of 16 (section 5.1.1) |
| Sha256.PadIsMinimal | tlrandomfix.c:760-823 | no shorter whole number of blocks holds the message, the marker and the two length words |
| Sha256Engine.PadLength | tlrandomfix.c:765-823 | the padding uses one extra block when len % 16 <= 13 and two when 14 <= len % 16, as the needAdditionalBlock branch decides |
| Sha256Engine.ExpandSchedule | tlrandomfix.c:843-846 | words 16..63 of the schedule array follow the section 6.2.2 recurrence, with sigma1, sigma0 and addition modulo 2^32 |
| Sha256Engine.RunRounds | tlrandomfix.c:858-869 | the 64 rounds of section 6.2.2 turn the working variables into the reference Rounds of the schedule |
| Sha256Engine.HashCurrentBlock | tlrandomfix.c:840-881 | the hash words become the reference compression of the current block, and the schedule array holds that block's schedule |
| Sha256Engine.FillWholeBlock | tlrandomfix.c:769-776 | block blockNum of the message words is exactly block blockNum of the padded message |
| Sha256Engine.FillRestBlock | tlrandomfix.c:778-808 | the tail words, the marker and either the zeros and the length or one zero form the next block of the padded message; the extra block is needed exactly when 14 <= len % 16 |
| Sha256Engine.FillPaddingBlock | tlrandomfix.c:810-821 | the additional block (the marker if not yet written, zeros, the length) is the last block of the padded message |
| Sha256Engine.HashWholeBlocks | tlrandomfix.c:764-776 | after the complete data blocks, the hash words are the intermediate hash of that many blocks of the padded message |
| Sha256Engine.HashLastBlocks | tlrandomfix.c:778-823 | after the tail and padding blocks, the hash words are the intermediate hash of all blocks of the padded message |
| Sha256Engine.GenerateHash | tlrandomfix.c:749-834 | -1 with dst untouched when len <= 0; otherwise 0 and dst holds the SHA-256 digest of the first len words, whatever the schedule array held before |
| Sha256Engine.SelfTest | tlrandomfix.c:959-969 | the result is memcmp of the first 8 digest bytes of the 11-word test message against the expected digest, so it is zero exactly when the first two digest words match |
| Words.Memcmp | tlrandomfix.c:966 | zero exactly when the first n bytes agree, and within -255..255 |
| Words.MemcmpFirstDifference | tlrandomfix.c:966 | a non-zero result is the difference of the first differing byte pair |
| Words.LeadingBytes | tlrandomfix.c:966 | the first 4k bytes of two word buffers agree exactly when their first k words agree |
| Words.WordsRoundTrip | tlrandomfix.c:340-345 | reading back as words the bytes of a word buffer gives the words |
| Words.BytesWordsRoundTrip | tlrandomfix.c:340-345 | writing back as bytes the words read from a byte buffer gives the bytes |
| RepetitionCount.Initialize | tlrandomfix.c:971-977 | the initial state is valid with a clear status, and restarting it changes nothing |
| RepetitionCount.Restart | tlrandomfix.c:979-984 | the counters are cleared (not initialised, one repetition, no failures) and the status byte is kept |
| RepetitionCount.Sample | tlrandomfix.c:986-1008 | validity (status 0 or 1, repetitions 1..4, threshold failures latch) is preserved; the failure count never drops; a latched status never changes and only latches at the threshold; a differing byte only sets the last sample and resets the repetition count |
| RepetitionCount.RunInvariant | tlrandomfix.c:986-1008 | any run of samples keeps the state valid, never lowers the failure count and never changes a latched status |
| RepetitionCount.TrailingRunIsMaximal | tlrandomfix.c:991-1005 | the trailing run is the longest suffix of equal bytes |
| RepetitionCount.RunAfterRestart | tlrandomfix.c:979-1008 | after a restart and any non-empty block, the last sample is the block's last byte, the repetition count is 1 + (trailing run - 1) mod 4, the failure count counts the positions where a run reaches 5, 9, 13, ... bytes, and the status latches exactly when that count reaches the threshold |
| AdaptiveProportion.RestartCycle | tlrandomfix.c:1025-1027 | only the cycle failures change, and they become zero |
| AdaptiveProportion.Restart | tlrandomfix.c:1020-1023 | the window is closed and the cycle failures cleared; the status byte is kept |
| AdaptiveProportion.Initialize | tlrandomfix.c:1011-1018 | the initial state is valid with a clear status, and restarting it changes nothing |
| AdaptiveProportion.Sample | tlrandomfix.c:1029-1052 | a closed window opens on the sample as reference byte; in an open window every sample is counted and the 64th closes it; a non-matching sample leaves repetitions, failures and status alone; a match within the cutoff clears the cycle failures and one beyond it adds one; validity is preserved and a latched status never changes |
| AdaptiveProportion.RunInvariant | tlrandomfix.c:1029-1052 | any run of samples keeps the state valid and never changes a latched status |
| AdaptiveProportion.RunWindow | tlrandomfix.c:1029-1052 | over one window (a reference byte f and up to 64 more bytes), the repetition count is the number of f's among them; the cycle failures are carried over if there is none, zero for up to 5 and the excess over 5 beyond; the status latches exactly when 5 + threshold occurrences are reached |
| Transport.KeptPrefix | tlrandomfix.c:453-465 | the bytes kept from a prefix of a transfer are a prefix of the bytes kept from the whole transfer |
| Transport.KeptMembers | tlrandomfix.c:453-465 | every byte at a payload index is kept, in transfer order |
| Transport.ShortTransferHasNoPayload | tlrandomfix.c:453 | a transfer of at most two bytes contributes nothing |
| Transport.HeaderPair | tlrandomfix.c:454-457 | the byte after a packet's first byte is skipped as well |
| Transport.StripPacket | tlrandomfix.c:453-465 | the receive buffer is extended by the transfer's payload bytes (index mod packet size at least 2), in order, up to the requested length |
| Transport.ChipRead | tlrandomfix.c:434-474 | the collected bytes only grow, never beyond the requested length; success holds exactly when the requested length was collected; each read consumes one transfer |
| Transport.ChipReadCollectsPayload | tlrandomfix.c:434-474 | the collected bytes are the payload of the transfers consumed, cut at the requested length |
| Transport.ChipReadData | tlrandomfix.c:423-476 | success exactly when length bytes arrived, and the bytes are the first length payload bytes of the transfers read |
| Transport.SilentReadFails | tlrandomfix.c:441-444 | when every transfer fails, the read fails |
| Transport.SndRcv | tlrandomfix.c:382-412 | the status is 0, -EPERM or -ETIMEDOUT; success means the response has sizeRcv + 1 bytes and its trailing status byte is 0; no attempts left gives -ETIMEDOUT; a shutdown at the first attempt gives -EPERM, and -EPERM only follows a shutdown some attempt saw; at most the remaining number of attempts is made |
| Transport.SndRcvResponse | tlrandomfix.c:387-411 | the transfers an exchange leaves unread are a suffix of those it was given, and a successful response is the first sizeRcv + 1 payload bytes of the transfers the last attempt read |
| Transport.SndRcvUsbData | tlrandomfix.c:382-412 | the exchange from the first attempt: the same status set and status-byte check, -EPERM only after a shutdown, at most USB_READ_MAX_RETRY_CNT sends, unread transfers a suffix of the given ones, and a successful response made of the first sizeRcv + 1 payload bytes the last attempt read |
| Transport.SilentDeviceTimesOut | tlrandomfix.c:387-412 | when no read succeeds and the driver is not shut down, the exchange times out |
| Transport.RefillCommand | tlrandomfix.c:330-336 | the command is 'x' followed by the count's low and high byte, and it encodes any 16-bit count exactly |
| Transport.RefillCommandInjective | tlrandomfix.c:330-336 | distinct 16-bit counts give distinct commands |
| Conditioning.AdvanceAdd | tlrandomfix.c:723-727 | k stamps followed by m stamps advance the serial counter by k + m modulo 2^32 |
| Conditioning.StampsDistinct | tlrandomfix.c:723-727 | stamps fewer than 2^32 apart carry different serial numbers |
| Conditioning.Stamp | tlrandomfix.c:723-727 | only word MIN_INPUT_NUM_WORDS changes, it holds the serial number, and the counter moves on by one modulo 2^32 |
| Conditioning.SubBlockInputsDistinct | tlrandomfix.c:343-349 | two sub-blocks stamped fewer than 2^32 stamps apart are hashed from different inputs, even when their raw words are equal |
| Conditioning.ConditionAt | tlrandomfix.c:343-350 | digest k of the conditioned block occupies output words 8k..8k+7 and is the hash of raw sub-block k stamped with the k-th serial |
| Conditioning.ConditionRawBlock | tlrandomfix.c:343-350 | the output words are the concatenated digests of the stamped sub-blocks, and the serial counter advances by the number of sub-blocks |
| Entropy.Install | tlrandomfix.c:340-356 | a successful transfer installs the conditioned block of the raw bytes and the current serial, with the cursor at 0. It advances the serial counter by the number of sub-blocks and keeps the flags and any latched status. Both tests are restarted and then run over the new block. The repetition count test latches exactly when it had latched before or the block holds at least the threshold number of over-long runs |
| Entropy.Refill | tlrandomfix.c:316-368 | -EPERM when the source is not ready or shut down; a failed exchange is passed on with the buffer and cursor untouched; success exactly when the exchange succeeds and neither test has latched; a test latched before the refill makes it fail. After a successful exchange the new block is installed (Install) from the first RND_IN_BUFFSIZE response bytes, whatever the verdict, and the status is 0 or -EPERM. -EPERM is returned exactly when either status byte is set, and the repetition count status is set exactly when it was set before or the new block reached the failure threshold |
| Entropy.RunTests | tlrandomfix.c:352-355 | every byte of the block goes, in order, through both tests |
| Entropy.RcvRndBytes | tlrandomfix.c:316-368 | the driver's refill computes exactly the specification Refill, and the command it sends asks for RND_IN_BUFFSIZE bytes |
| Entropy.GetEntropyBytes | tlrandomfix.c:300-308 | no-op success while bytes remain; otherwise a refill; success always leaves bytes to serve |
| Entropy.FailedBlockIsServed | tlrandomfix.c:351-363 | after a successful transfer the conditioned block is installed with the cursor at 0 whatever the test verdict, so the next get_entropy_bytes serves it without a refill |
| Entropy.LatchedTestFailsEveryRefill | tlrandomfix.c:357-363 | once a test has latched, this refill and every later one fail |
| Entropy.ReadChunk | tlrandomfix.c:264-281 | one pass of the read loop, with or without a refill: a failed refill ends it with the refill's status and state; after a successful one (or none) the copy fails with -EFAULT, leaving the refilled state, exactly when neither the wanted nor the available bytes fit the caller's buffer; otherwise the bytes at the cursor of the (refilled) block are delivered and the cursor advances by their number |
| Entropy.ReadPass | tlrandomfix.c:264-281 | a pass from any state a read reaches: a success delivers at least one more byte when any is wanted, never more than asked for or than the caller can take, and reaches again a state a read reaches (the last refill's driver with the cursor moved, what was delivered followed by the rest of the block being the stream); without a refill the installed blocks stay the same, and the pass succeeds exactly when the wanted or the available bytes fit the caller's buffer, failing otherwise with -EFAULT and the state unchanged; a failure delivers nothing more |
| Entropy.ReadLoop | tlrandomfix.c:262-281 | never more than length bytes or more than the caller can take; a non-negative result is exactly length, and a negative one is -EFAULT, -EPERM or -ETIMEDOUT; the bytes delivered are a prefix of the rest of the current block followed by the blocks that a chain of successful refills installed, in order, and after a refill less than one block of that stream is left undelivered, so no refill happens before it is needed; on success the driver is the last refill's with the cursor just past the bytes delivered; when the current block holds the whole request, the loop returns exactly its next length bytes and moves the cursor past them, or fails with -EFAULT without moving it |
| Entropy.DeviceRead | tlrandomfix.c:246-292 | -ENODATA with nothing changed when the source is not ready or the driver shuts down; otherwise the read loop's guarantees |
| Entropy.InitCore | tlrandomfix.c:511-530 | both tests start clear, the serial counter is seeded with 413145, and the load fails with -EPERM exactly when the SHA-256 self test fails |

## Left out

- USB probe, disconnect and cleanup (`usb_probe`, `usb_disconnect`, `clean_up_usb`): kernel USB API glue, buffer allocation and endpoint discovery.
- Character-device registration, open, release, write, llseek, `exit_tlrandom` and the rest of `init_tlrandom` after the self test: kernel registration plumbing with no state this model keeps.
- The mutex, the `isDeviceOpPending`/`isUsbOpPending` flags and `wait_for_pending_ops`: they coordinate concurrent callers, and the model is sequential. An interrupted `mutex_lock_killable` (-EPERM from `device_read`) is not modelled.
- `usb_bulk_msg` is modelled as a script of outcomes. Each outcome carries its status, its bytes, the shutdown flag as the loop sees it, and the seconds waited so far in place of `get_seconds`. When the script runs out, a read ends with -ETIMEDOUT and a send counts as a failed attempt.
- `copy_to_user` is modelled as the number of leading bytes of the caller's buffer it can write. Bytes it might write before faulting are not modelled.
- `printk` and the code under `inDebugMode`: logging only.
- The `failureWindow` field of the repetition count test: it is written but never read.
- Entropy.DeviceRead: a negative result is only stated to be -ENODATA, -EFAULT, -EPERM or -ETIMEDOUT. It is not tied to the pass that failed, and the driver state after a failed pass is not stated. Entropy.ReadChunk states both for a single pass.
- Entropy.ReadLoop: the same as for Entropy.DeviceRead.
- The widths of the health-test counters are in `tlrandom.h`, so the counters are unbounded naturals. Any wrap-around of those fields is not modelled.
- A `TRND_OUT_BUFFSIZE` other than the sub-blocks times 8 words of 4 bytes: `Config.TrndOutBuffSize` is defined as that product, because the conditioning loop only fills the buffer exactly in that case.
- The initial value of `curTrngOutIdx` is set in `tlrandom.h`. The model takes any cursor within the block, or at its end.
- The serial counter wraps modulo 2^32 like the C `uint32_t`. The SHA-256 word arithmetic wraps modulo 2^32 explicitly.
