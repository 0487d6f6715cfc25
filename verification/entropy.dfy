/**
  The entropy buffer of the driver: the conditioned block buffTRndOut, the
  cursor curTrngOutIdx into it, the serial counter and the two health tests,
  with the refill (rcv_rnd_bytes), the refill-when-empty check
  (get_entropy_bytes), the read loop of device_read and the start-up part of
  module initialisation.  The driver's globals are one Driver record; the
  transfers to and from the device come from a Usb script and copy_to_user is
  an oracle saying how many leading bytes of the caller's buffer are
  writable.  The hashing scratch buffers (srcToHash and the schedule array)
  are local to a refill: no result depends on what they held before.
 */
module Entropy {
  import opened Words
  import opened Config
  import opened Sha256
  import opened Sha256Engine
  import opened Transport
  import opened Conditioning
  import Rct = RepetitionCount
  import Apt = AdaptiveProportion

  /** The driver's globals that the refill and read paths use. */
  datatype Driver = Driver(
    ready: bool,         // isEntropySrcRdy
    shutDown: bool,      // isShutDown
    bulkInSize: nat,     // usbData->bulk_in_size
    out: seq<Byte>,      // buffTRndOut
    cursor: nat,         // curTrngOutIdx
    serial: Word,        // sd.blockSerialNumber
    rct: Rct.Rct,
    apt: Apt.Apt)

  /** The conditioned block has its full size, the cursor is inside it or at
      its end, the packet size is positive and both tests are valid. */
  predicate Valid(d: Driver)
  {
    && |d.out| == TrndOutBuffSize
    && d.cursor <= TrndOutBuffSize
    && d.bulkInSize >= 1
    && Rct.Valid(d.rct)
    && Apt.Valid(d.apt)
  }

  /** A status, the driver afterwards and the transfers left. */
  datatype Outcome = Outcome(status: int, driver: Driver, usb: Usb)

  /** The conditioned block made from a raw block. */
  function ConditionedBytes(raw: seq<Byte>, serial: Word): (r: seq<Byte>)
    requires |raw| == RndInBuffSize
    ensures |r| == TrndOutBuffSize
  {
    BufferSizes();
    WordsToBytes(Condition(BytesToWords(raw), serial, NumSubBlocks))
  }

  /** The state after a successful transfer of raw: the conditioned block is
      installed, the cursor is back at its start, the serial counter has
      moved on by one per sub-block and both tests have been restarted and
      fed every byte of the new block. */
  function Install(d: Driver, raw: seq<Byte>): (r: Driver)
    requires Valid(d) && |raw| == RndInBuffSize
    ensures Valid(r)
    ensures r.cursor == 0 && r.serial == Advance(d.serial, NumSubBlocks)
    ensures r.ready == d.ready && r.shutDown == d.shutDown && r.bulkInSize == d.bulkInSize
    ensures d.rct.statusByte != 0 ==> r.rct.statusByte == d.rct.statusByte
    ensures d.apt.statusByte != 0 ==> r.apt.statusByte == d.apt.statusByte
    ensures r.out == ConditionedBytes(raw, d.serial)
    ensures r.rct == Rct.Run(Rct.Restart(d.rct), r.out) && r.apt == Apt.Run(Apt.Restart(d.apt), r.out)
    ensures r.rct.statusByte != 0 <==> d.rct.statusByte != 0 || Rct.Failures(r.out) >= NumConsecFailThreshold
  {
    var block := ConditionedBytes(raw, d.serial);
    Rct.RunInvariant(Rct.Restart(d.rct), block);
    Apt.RunInvariant(Apt.Restart(d.apt), block);
    BufferSizes();
    Rct.RunAfterRestart(d.rct, block);
    d.(out := block, cursor := 0, serial := Advance(d.serial, NumSubBlocks),
       rct := Rct.Run(Rct.Restart(d.rct), block), apt := Apt.Run(Apt.Restart(d.apt), block))
  }

  /** The exchange a refill makes: the refill command out, RndInBuffSize
      bytes and the device status byte back. */
  function RefillExchange(d: Driver, usb: Usb): Exchange
    requires d.bulkInSize >= 1
  {
    SndRcvUsbData(usb, d.bulkInSize, |RefillCommand(RndInBuffSize)|, RndInBuffSize, UsbReadTimeoutSecs)
  }

  /** rcv_rnd_bytes: refuse with -EPERM when the source is not ready or the
      driver shuts down; pass on a failed exchange without touching the
      buffer or the cursor; otherwise install the new block and report
      -EPERM when either test's status is latched. */
  function Refill(d: Driver, usb: Usb): (r: Outcome)
    requires Valid(d)
    ensures Valid(r.driver)
    ensures r.status == SUCCESS || r.status == -EPERM || r.status == -ETIMEDOUT
    ensures !d.ready || d.shutDown ==> r == Outcome(-EPERM, d, usb)
    ensures d.ready && !d.shutDown && RefillExchange(d, usb).status != SUCCESS ==>
              r == Outcome(RefillExchange(d, usb).status, d, RefillExchange(d, usb).usb)
    ensures r.status == SUCCESS <==>
              d.ready && !d.shutDown && RefillExchange(d, usb).status == SUCCESS &&
              r.driver.rct.statusByte == 0 && r.driver.apt.statusByte == 0
    ensures d.rct.statusByte != 0 || d.apt.statusByte != 0 ==> r.status != SUCCESS
    ensures r.status == SUCCESS ==> r.driver.cursor == 0
    ensures d.ready && !d.shutDown && RefillExchange(d, usb).status == SUCCESS ==>
              && r.driver == Install(d, RefillExchange(d, usb).response[..RndInBuffSize])
              && r.usb == RefillExchange(d, usb).usb
              && (r.status == SUCCESS || r.status == -EPERM)
              && (r.status == -EPERM <==> r.driver.rct.statusByte != 0 || r.driver.apt.statusByte != 0)
              && (r.driver.rct.statusByte != 0 <==>
                    d.rct.statusByte != 0 || Rct.Failures(r.driver.out) >= NumConsecFailThreshold)
  {
    if !d.ready || d.shutDown then
      Outcome(-EPERM, d, usb)
    else
      var x := RefillExchange(d, usb);
      if x.status != SUCCESS then
        Outcome(x.status, d, x.usb)
      else
        var d' := Install(d, x.response[..RndInBuffSize]);
        var status := if d'.rct.statusByte != SUCCESS then -EPERM
                      else if d'.apt.statusByte != SUCCESS then -EPERM
                      else SUCCESS;
        Outcome(status, d', x.usb)
  }

  /** The sampling loop of rcv_rnd_bytes: every byte of the block, first to
      last, goes to the repetition count test and then to the adaptive
      proportion test. */
  method RunTests(rct: Rct.Rct, apt: Apt.Apt, block: seq<Byte>) returns (rct': Rct.Rct, apt': Apt.Apt)
    ensures rct' == Rct.Run(rct, block) && apt' == Apt.Run(apt, block)
  {
    rct', apt' := rct, apt;
    var i := 0;
    while i < |block|
      invariant i <= |block|
      invariant rct' == Rct.Run(rct, block[..i]) && apt' == Apt.Run(apt, block[..i])
    {
      assert block[..i + 1][..i] == block[..i];
      rct' := Rct.Sample(rct', block[i]);
      apt' := Apt.Sample(apt', block[i]);
      i := i + 1;
    }
    assert block[..i] == block;
  }

  /** rcv_rnd_bytes as the driver runs it: build the command, exchange it,
      restart the tests, condition the raw block sub-block by sub-block,
      reset the cursor, feed every output byte to both tests and judge.  The
      command sent is returned as well. */
  method RcvRndBytes(d: Driver, usb: Usb) returns (status: int, d': Driver, usb': Usb, cmd: seq<Byte>)
    requires Valid(d)
    ensures Outcome(status, d', usb') == Refill(d, usb)
    ensures d.ready && !d.shutDown ==> |cmd| == 3 && cmd[0] == RefillOpcode && CommandCount(cmd) == RndInBuffSize
  {
    hide Condition, Hash;
    BufferSizes();
    cmd := [];
    if !d.ready || d.shutDown {
      return -EPERM, d, usb, cmd;
    }
    cmd := RefillCommand(RndInBuffSize);
    var x := SndRcvUsbData(usb, d.bulkInSize, |cmd|, RndInBuffSize, UsbReadTimeoutSecs);
    status, d', usb' := x.status, d, x.usb;
    if status == SUCCESS {
      var raw := x.response[..RndInBuffSize];
      var rct := Rct.Restart(d.rct);
      var apt := Apt.Restart(d.apt);
      var words, serial, srcToHash, w := ConditionRawBlock(BytesToWords(raw), d.serial,
                                                            seq(MinInputNumWords + 1, _ => 0), seq(64, _ => 0));
      var block := WordsToBytes(words);
      assert block == ConditionedBytes(raw, d.serial);
      rct, apt := RunTests(rct, apt, block);
      d' := d.(out := block, cursor := 0, serial := serial, rct := rct, apt := apt);
      if rct.statusByte != SUCCESS {
        status := -EPERM;
      } else if apt.statusByte != SUCCESS {
        status := -EPERM;
      }
    }
  }

  /** get_entropy_bytes: refill only when the cursor has reached the end of
      the block. */
  function GetEntropyBytes(d: Driver, usb: Usb): (r: Outcome)
    requires Valid(d)
    ensures Valid(r.driver)
    ensures d.cursor < TrndOutBuffSize ==> r == Outcome(SUCCESS, d, usb)
    ensures d.cursor >= TrndOutBuffSize ==> r == Refill(d, usb)
    ensures r.status == SUCCESS ==> r.driver.cursor < TrndOutBuffSize
  {
    BufferSizes();
    if d.cursor >= TrndOutBuffSize then Refill(d, usb) else Outcome(SUCCESS, d, usb)
  }

  /** The quirk of the refill: the cursor is reset before the health verdict,
      so a block that failed a health test is installed all the same and the
      next get_entropy_bytes serves it without another refill. */
  lemma FailedBlockIsServed(d: Driver, usb: Usb)
    requires Valid(d) && d.ready && !d.shutDown
    requires RefillExchange(d, usb).status == SUCCESS
    ensures Refill(d, usb).driver.out == ConditionedBytes(RefillExchange(d, usb).response[..RndInBuffSize], d.serial)
    ensures Refill(d, usb).driver.cursor == 0
    ensures GetEntropyBytes(Refill(d, usb).driver, Refill(d, usb).usb) ==
              Outcome(SUCCESS, Refill(d, usb).driver, Refill(d, usb).usb)
  {
    BufferSizes();
  }

  /** The latch is sticky across refills: once a test has failed, every
      later refill reports failure. */
  lemma LatchedTestFailsEveryRefill(d: Driver, usb1: Usb, usb2: Usb)
    requires Valid(d) && (d.rct.statusByte != 0 || d.apt.statusByte != 0)
    ensures Refill(d, usb1).status != SUCCESS
    ensures Refill(d, usb1).driver.rct.statusByte != 0 || Refill(d, usb1).driver.apt.statusByte != 0
    ensures Refill(Refill(d, usb1).driver, usb2).status != SUCCESS
  {
  }

  /** How one pass of the read loop relates to get_entropy_bytes, whose
      outcome r it starts from.  The transfers left are r's.  A failed
      refill is passed on with its status and driver state.  After a
      successful one the copy of the bytes left and wanted fails with
      -EFAULT, leaving r's state, exactly when neither the wanted nor the
      remaining bytes fit the caller's writable room; otherwise the chunk is
      the bytes at r's cursor and the cursor moves past them. */
  predicate FollowsRefill(d: Driver, usb: Usb, want: nat, writable: nat,
                          status: int, d': Driver, usb': Usb, chunk: seq<Byte>)
    requires Valid(d)
  {
    var r := GetEntropyBytes(d, usb);
    && usb' == r.usb
    && (r.status != SUCCESS ==> status == r.status && d' == r.driver)
    && (r.status == SUCCESS ==>
          && (status == SUCCESS <==> want <= writable || TrndOutBuffSize - r.driver.cursor <= writable)
          && (status != SUCCESS ==> status == -EFAULT && d' == r.driver)
          && (status == SUCCESS ==>
                && r.driver.cursor + |chunk| <= TrndOutBuffSize
                && d' == r.driver.(cursor := r.driver.cursor + |chunk|)
                && chunk == r.driver.out[r.driver.cursor .. d'.cursor]))
  }

  /** One pass of the read loop of device_read: make sure the block has
      bytes left, then copy as many as are left and wanted (want) to the
      caller, whose buffer has writable bytes of room left.  A failed
      refill is passed on; a copy that does not fit fails with -EFAULT and
      leaves the cursor where it was. */
  method ReadChunk(d: Driver, usb: Usb, want: nat, writable: nat)
    returns (status: int, d': Driver, usb': Usb, chunk: seq<Byte>)
    requires Valid(d)
    ensures Valid(d')
    ensures status == SUCCESS || status == -EFAULT || status == -EPERM || status == -ETIMEDOUT
    ensures status == SUCCESS ==>
              |chunk| <= want && |chunk| <= writable &&
              (|chunk| == want || d'.cursor == TrndOutBuffSize) &&
              (want > 0 ==> |chunk| > 0)
    ensures status != SUCCESS ==> chunk == []
    ensures d.cursor < TrndOutBuffSize ==> usb' == usb
    ensures d.cursor < TrndOutBuffSize && status == SUCCESS ==>
              d' == d.(cursor := d.cursor + |chunk|) && chunk == d.out[d.cursor .. d.cursor + |chunk|]
    ensures d.cursor < TrndOutBuffSize && status != SUCCESS ==> status == -EFAULT && d' == d
    ensures d.cursor < TrndOutBuffSize ==>
              (status == SUCCESS <==> want <= writable || TrndOutBuffSize - d.cursor <= writable)
    ensures FollowsRefill(d, usb, want, writable, status, d', usb', chunk)
  {
    hide Install, ConditionedBytes, Refill, RefillExchange;
    BufferSizes();
    var r := GetEntropyBytes(d, usb);
    status, d', usb', chunk := r.status, r.driver, r.usb, [];
    if status != SUCCESS {
      return;
    }
    var act := TrndOutBuffSize - d'.cursor;
    if act > want {
      act := want;
    }
    if act > writable {
      status := -EFAULT;
      return;
    }
    chunk := d'.out[d'.cursor .. d'.cursor + act];
    d' := d'.(cursor := d'.cursor + act);
  }

  /** A pass of the read loop that found the block read to its end and
      succeeded: the refill succeeded, and the chunk is the start of the
      block it installed. */
  lemma RefillPass(d: Driver, usb: Usb, want: nat, writable: nat,
                   status: int, d': Driver, usb': Usb, chunk: seq<Byte>)
    requires Valid(d) && d.cursor >= TrndOutBuffSize && status == SUCCESS
    requires FollowsRefill(d, usb, want, writable, status, d', usb', chunk)
    ensures Refill(d, usb).status == SUCCESS
    ensures d' == Refill(d, usb).driver.(cursor := |chunk|) && usb' == Refill(d, usb).usb
    ensures |chunk| <= |d'.out| && chunk == d'.out[..|chunk|]
  {
    hide GetEntropyBytes, Refill, RefillExchange, Rct.Valid, Apt.Valid;
    BufferSizes();
  }

  lemma NothingInstalled(d: Driver, usb: Usb)
    requires Valid(d)
    ensures RefillsInstall(d, usb, []) && Stream(d, []) == d.out[d.cursor..]
  {
  }

  /** blocks are installed, in order, by successive successful refills from
      d and usb, each made once the block before it has been read to its
      end. */
  predicate RefillsInstall(d: Driver, usb: Usb, blocks: seq<seq<Byte>>)
    requires Valid(d)
    decreases |blocks|
  {
    blocks != [] ==>
      var x := Refill(d.(cursor := TrndOutBuffSize), usb);
      x.status == SUCCESS && x.driver.out == blocks[0] && RefillsInstall(x.driver, x.usb, blocks[1..])
  }

  /** The outcome of the last of those refills; d and usb when there is
      none. */
  function AfterRefills(d: Driver, usb: Usb, blocks: seq<seq<Byte>>): (r: Outcome)
    requires Valid(d) && RefillsInstall(d, usb, blocks)
    ensures Valid(r.driver) && r.status == SUCCESS
    ensures blocks == [] ==> r == Outcome(SUCCESS, d, usb)
    decreases |blocks|
  {
    if blocks == [] then Outcome(SUCCESS, d, usb)
    else
      var x := Refill(d.(cursor := TrndOutBuffSize), usb);
      AfterRefills(x.driver, x.usb, blocks[1..])
  }

  /** One more successful refill, made once the last block is read to its
      end, extends the chain by the block it installs. */
  lemma {:induction false} RefillsInstallSnoc(d: Driver, usb: Usb, blocks: seq<seq<Byte>>, x: Outcome)
    requires Valid(d) && RefillsInstall(d, usb, blocks)
    requires x == Refill(AfterRefills(d, usb, blocks).driver.(cursor := TrndOutBuffSize), AfterRefills(d, usb, blocks).usb)
    requires x.status == SUCCESS
    ensures RefillsInstall(d, usb, blocks + [x.driver.out])
    ensures AfterRefills(d, usb, blocks + [x.driver.out]) == x
    decreases |blocks|
  {
    hide Install, ConditionedBytes, Refill, RefillExchange, Rct.Valid, Apt.Valid;
    var b := x.driver.out;
    if blocks == [] {
      assert (blocks + [b])[1..] == [];
    } else {
      var y := Refill(d.(cursor := TrndOutBuffSize), usb);
      assert (blocks + [b])[1..] == blocks[1..] + [b];
      RefillsInstallSnoc(y.driver, y.usb, blocks[1..], x);
    }
  }

  /** The blocks, one after the other. */
  function Concat(blocks: seq<seq<Byte>>): seq<Byte>
  {
    if blocks == [] then [] else Concat(blocks[..|blocks| - 1]) + blocks[|blocks| - 1]
  }

  /** The bytes a reader can be served from d on, given the blocks later
      refills install: the rest of the current block, then those blocks in
      order. */
  function Stream(d: Driver, blocks: seq<seq<Byte>>): seq<Byte>
    requires d.cursor <= |d.out|
  {
    d.out[d.cursor..] + Concat(blocks)
  }

  lemma StreamSnoc(d: Driver, blocks: seq<seq<Byte>>, b: seq<Byte>)
    requires d.cursor <= |d.out|
    ensures Stream(d, blocks + [b]) == Stream(d, blocks) + b
  {
    assert (blocks + [b])[..|blocks|] == blocks;
  }

  /** Delivering a chunk keeps what is delivered, followed by the rest of the
      current block, equal to the stream: the chunk comes from the rest of
      the block, or, after a refill (installed the block it installs,
      empty otherwise), from the start of the new block. */
  lemma Served(delivered: seq<Byte>, left: seq<Byte>, stream: seq<Byte>, chunk: seq<Byte>,
               out: seq<Byte>, cursor: nat, installed: seq<Byte>)
    requires delivered + left == stream
    requires cursor <= |out| && chunk + out[cursor..] == left + installed
    ensures delivered + chunk + out[cursor..] == stream + installed
  {
    assert delivered + chunk + out[cursor..] == delivered + (chunk + out[cursor..]);
  }

  /** The state of a read of d and usb after delivering delivered, with
      blocks the blocks its refills installed: the driver and transfers are
      those of the last refill (d and usb when there was none) with the
      cursor moved on, and what was delivered, followed by the rest of the
      current block, is the stream. */
  predicate ReadSoFar(d: Driver, usb: Usb, d': Driver, usb': Usb, delivered: seq<Byte>, blocks: seq<seq<Byte>>)
    requires Valid(d)
  {
    && Valid(d')
    && RefillsInstall(d, usb, blocks)
    && d' == AfterRefills(d, usb, blocks).driver.(cursor := d'.cursor)
    && usb' == AfterRefills(d, usb, blocks).usb
    && delivered + d'.out[d'.cursor..] == Stream(d, blocks)
  }

  /** One pass of the read loop, from a state reached by the passes before
      it.  A successful pass delivers a chunk, and the state it reaches is
      again one a read reaches; when it refills, the block installed is
      added to blocks and the chunk is its start.  A failed pass delivers
      nothing more. */
  method ReadPass(d: Driver, usb: Usb, length: nat, userWritable: nat,
                  d0: Driver, u0: Usb, delivered: seq<Byte>, blocks: seq<seq<Byte>>)
    returns (status: int, d': Driver, usb': Usb, delivered': seq<Byte>, blocks': seq<seq<Byte>>)
    requires Valid(d) && ReadSoFar(d, usb, d0, u0, delivered, blocks)
    requires |delivered| <= length && |delivered| <= userWritable
    ensures Valid(d')
    ensures status == SUCCESS || status == -EFAULT || status == -EPERM || status == -ETIMEDOUT
    ensures status != SUCCESS ==> delivered' == delivered && blocks' == blocks
    ensures status == SUCCESS ==>
              && ReadSoFar(d, usb, d', usb', delivered', blocks')
              && |delivered| <= |delivered'| <= length && |delivered'| <= userWritable
              && (|delivered| < length ==> |delivered| < |delivered'|)
              && (|delivered'| == length || d'.cursor == TrndOutBuffSize)
              && (blocks' == blocks || |delivered| == length || |Stream(d, blocks')| - |delivered'| < TrndOutBuffSize)
    ensures d0.cursor < TrndOutBuffSize ==> blocks' == blocks && usb' == u0
    ensures d0.cursor < TrndOutBuffSize && status != SUCCESS ==> status == -EFAULT && d' == d0
    ensures d0.cursor < TrndOutBuffSize ==>
              (status == SUCCESS <==> length - |delivered| <= userWritable - |delivered| ||
                                      TrndOutBuffSize - d0.cursor <= userWritable - |delivered|)
  {
    hide FollowsRefill, Install, ConditionedBytes, Rct.Valid, Apt.Valid, Refill, RefillExchange, RefillsInstall, AfterRefills, Stream, Concat;
    BufferSizes();
    var chunk;
    status, d', usb', chunk := ReadChunk(d0, u0, length - |delivered|, userWritable - |delivered|);
    delivered', blocks' := delivered, blocks;
    if status != SUCCESS {
      return;
    }
    if d0.cursor >= TrndOutBuffSize {
      RefillPass(d0, u0, length - |delivered|, userWritable - |delivered|, status, d', usb', chunk);
      var x := Refill(d0, u0);
      RefillsInstallSnoc(d, usb, blocks, x);
      StreamSnoc(d, blocks, x.driver.out);
      Served(delivered, d0.out[d0.cursor..], Stream(d, blocks), chunk, d'.out, d'.cursor, x.driver.out);
      blocks' := blocks + [x.driver.out];
    } else {
      Served(delivered, d0.out[d0.cursor..], Stream(d, blocks), chunk, d'.out, d'.cursor, []);
    }
    delivered' := delivered + chunk;
  }

  /** The read loop of device_read, entered with the source ready and the
      driver running.  Until length bytes are delivered: make sure the block
      has bytes left (refilling it if not), copy as many as are left and
      wanted to the caller, and advance the cursor.  A failed refill or copy
      ends the loop with its error, even after bytes were delivered.
      userWritable is the number of leading bytes of the caller's buffer
      copy_to_user can write.  blocks are the blocks the loop's successful
      refills installed, in order: what is delivered is the start of the
      rest of the current block followed by them, and every one of them
      contributes to it. */
  method ReadLoop(d: Driver, usb: Usb, length: nat, userWritable: nat)
    returns (retval: int, d': Driver, usb': Usb, delivered: seq<Byte>, blocks: seq<seq<Byte>>)
    requires Valid(d)
    ensures Valid(d')
    ensures |delivered| <= length && |delivered| <= userWritable
    ensures retval >= 0 ==> retval == length && |delivered| == length
    ensures |delivered| < length ==> retval < 0
    ensures retval < 0 ==> retval == -EFAULT || retval == -EPERM || retval == -ETIMEDOUT
    ensures RefillsInstall(d, usb, blocks)
    ensures delivered <= Stream(d, blocks)
    ensures blocks != [] && length > 0 ==> |Stream(d, blocks)| - |delivered| < TrndOutBuffSize
    ensures retval >= 0 ==>
              d' == AfterRefills(d, usb, blocks).driver.(cursor := d'.cursor) &&
              usb' == AfterRefills(d, usb, blocks).usb &&
              delivered + d'.out[d'.cursor..] == Stream(d, blocks)
    ensures d.cursor < TrndOutBuffSize && d.cursor + length <= TrndOutBuffSize ==>
              usb' == usb && blocks == [] &&
              if length <= userWritable then
                retval == length && delivered == d.out[d.cursor .. d.cursor + length] &&
                d' == d.(cursor := d.cursor + length)
              else
                retval == -EFAULT && delivered == [] && d' == d
  {
    hide GetEntropyBytes, FollowsRefill, Install, ConditionedBytes, Rct.Valid, Apt.Valid, Refill, RefillExchange, RefillsInstall, AfterRefills, Stream, Concat;
    BufferSizes();
    NothingInstalled(d, usb);
    d', usb', delivered, blocks := d, usb, [], [];
    while true
      invariant ReadSoFar(d, usb, d', usb', delivered, blocks)
      invariant |delivered| <= length && |delivered| <= userWritable
      invariant |delivered| < length || |delivered| == 0
      invariant blocks != [] && length > 0 ==> |Stream(d, blocks)| - |delivered| < TrndOutBuffSize
      invariant d.cursor < TrndOutBuffSize && d.cursor + length <= TrndOutBuffSize ==>
                  delivered == [] && blocks == [] && d' == d && usb' == usb
      decreases length - |delivered|
    {
      var status, d2, u2, delivered2, blocks2 := ReadPass(d, usb, length, userWritable, d', usb', delivered, blocks);
      if status != SUCCESS {
        retval, d', usb' := status, d2, u2;
        break;
      }
      d', usb', delivered, blocks := d2, u2, delivered2, blocks2;
      retval := |delivered|;
      if |delivered| >= length {
        break;
      }
    }
    if retval >= 0 {
      assert delivered == (delivered + d'.out[d'.cursor..])[..|delivered|];
      if blocks == [] {
        assert delivered == d.out[d.cursor..][..|delivered|] == d.out[d.cursor .. d.cursor + |delivered|];
      }
    }
  }

  /** device_read: fail with -ENODATA when the source is not ready or the
      driver shuts down, and run the read loop otherwise. */
  method DeviceRead(d: Driver, usb: Usb, length: nat, userWritable: nat)
    returns (retval: int, d': Driver, usb': Usb, delivered: seq<Byte>, blocks: seq<seq<Byte>>)
    requires Valid(d)
    ensures Valid(d')
    ensures !d.ready || d.shutDown ==> retval == -ENODATA && d' == d && usb' == usb && delivered == [] && blocks == []
    ensures |delivered| <= length && |delivered| <= userWritable
    ensures retval >= 0 ==> retval == length && |delivered| == length
    ensures |delivered| < length ==> retval < 0
    ensures retval < 0 ==> retval == -ENODATA || retval == -EFAULT || retval == -EPERM || retval == -ETIMEDOUT
    ensures RefillsInstall(d, usb, blocks)
    ensures delivered <= Stream(d, blocks)
    ensures blocks != [] && length > 0 ==> |Stream(d, blocks)| - |delivered| < TrndOutBuffSize
    ensures retval >= 0 ==>
              d' == AfterRefills(d, usb, blocks).driver.(cursor := d'.cursor) &&
              usb' == AfterRefills(d, usb, blocks).usb &&
              delivered + d'.out[d'.cursor..] == Stream(d, blocks)
    ensures d.ready && !d.shutDown && d.cursor < TrndOutBuffSize && d.cursor + length <= TrndOutBuffSize ==>
              usb' == usb && blocks == [] &&
              if length <= userWritable then
                retval == length && delivered == d.out[d.cursor .. d.cursor + length] &&
                d' == d.(cursor := d.cursor + length)
              else
                retval == -EFAULT && delivered == [] && d' == d
  {
    if !d.ready || d.shutDown {
      return -ENODATA, d, usb, [], [];
    }
    retval, d', usb', delivered, blocks := ReadLoop(d, usb, length, userWritable);
  }

  /** The start-up part of init_tlrandom: both tests initialised, the serial
      counter seeded with 413145, and the SHA-256 self test run; a failed
      self test aborts the load with -EPERM. */
  method InitCore(d: Driver) returns (status: int, d': Driver)
    ensures d'.rct == Rct.Initialize() && d'.apt == Apt.Initialize()
    ensures d'.rct.statusByte == 0 && d'.apt.statusByte == 0
    ensures d'.serial == InitialSerialNumber
    ensures status == SUCCESS <==> Hash(TestSeq1[..11])[..2] == ExptHashSeq1[..2]
    ensures status != SUCCESS ==> status == -EPERM
  {
    hide Hash;
    d' := d.(rct := Rct.Initialize(), apt := Apt.Initialize(), serial := InitialSerialNumber);
    var selfTest, w := SelfTest(seq(64, _ => 0));
    status := if selfTest != SUCCESS then -EPERM else SUCCESS;
  }
}
