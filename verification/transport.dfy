/**
  The command/response transport to the TL device.  The USB transfers, the
  shutdown flag and the wall clock are not modelled as effects: each transfer
  the driver would make is taken from a script of outcomes, and each outcome
  records whether the shutdown flag was seen set before the transfer, the
  status the USB layer returned, the bytes moved and, for reads, the seconds
  elapsed since the read began.  A script that runs out behaves like a device
  that no longer answers: every further transfer times out.
 */
module Transport {
  import opened Words
  import opened Config

  /** The outcome of one bulk-out transfer of the command. */
  datatype SendOutcome = SendOutcome(shutDown: bool, status: int, actual: int)

  /** The outcome of one bulk-in transfer: data is what arrived in the bulk-in
      buffer (its length is the transferred count) and elapsed is the clock
      reading taken after the transfer, relative to the start of the read. */
  datatype ReadOutcome = ReadOutcome(shutDown: bool, status: int, data: seq<Byte>, elapsed: int)

  /** The transfers still to come on the device's two endpoints. */
  datatype Usb = Usb(outbound: seq<SendOutcome>, inbound: seq<ReadOutcome>)

  /** The first n elements of s, or all of s when it is shorter. */
  function Take<T>(s: seq<T>, n: int): (r: seq<T>)
    ensures |r| == if n <= 0 then 0 else if n <= |s| then n else |s|
    ensures forall i :: 0 <= i < |r| ==> r[i] == s[i]
  {
    if n <= 0 then [] else if n <= |s| then s[..n] else s
  }

  lemma TakeAppend<T>(a: seq<T>, b: seq<T>, n: int)
    ensures Take(a + b, n) == if n <= |a| then Take(a, n) else a + Take(b, n - |a|)
  {
    if n > |a| {
      assert Take(a + b, n) == a + Take(b, n - |a|);
    } else if n > 0 {
      assert (a + b)[..n] == a[..n];
    }
  }

  /** Whether byte i of a transfer is payload: the device sends packets of
      bulkInSize bytes whose first two bytes are a status header. */
  predicate IsPayload(i: nat, bulkInSize: nat)
    requires bulkInSize >= 1
  {
    PacketPos(i, bulkInSize) >= 2
  }

  /** Position of byte i within its packet. */
  function PacketPos(i: nat, bulkInSize: nat): (p: nat)
    requires bulkInSize >= 1
    ensures p < bulkInSize
  {
    i % bulkInSize
  }

  /** The payload of one transfer: its bytes at payload positions, in order. */
  function Kept(data: seq<Byte>, bulkInSize: nat): seq<Byte>
    requires bulkInSize >= 1
  {
    if |data| == 0 then []
    else Kept(data[..|data| - 1], bulkInSize) + (if IsPayload(|data| - 1, bulkInSize) then [data[|data| - 1]] else [])
  }

  lemma KeptStep(data: seq<Byte>, k: nat, bulkInSize: nat)
    requires bulkInSize >= 1 && k < |data|
    ensures Kept(data[..k + 1], bulkInSize) ==
              Kept(data[..k], bulkInSize) + (if IsPayload(k, bulkInSize) then [data[k]] else [])
  {
    assert data[..k + 1][..k] == data[..k];
  }

  /** The payload of a prefix of a transfer is a prefix of its payload. */
  lemma {:induction false} KeptPrefix(data: seq<Byte>, j: nat, bulkInSize: nat)
    requires bulkInSize >= 1 && j <= |data|
    ensures |Kept(data[..j], bulkInSize)| <= |Kept(data, bulkInSize)|
    ensures Kept(data[..j], bulkInSize) == Kept(data, bulkInSize)[..|Kept(data[..j], bulkInSize)|]
  {
    if j < |data| {
      var d := data[..|data| - 1];
      assert d[..j] == data[..j];
      KeptPrefix(d, j, bulkInSize);
    } else {
      assert data[..j] == data;
    }
  }

  /** Every byte of a payload is one of the transfer's payload-position
      bytes, and every payload-position byte is in the payload: its count
      of payload positions before it says where. */
  lemma {:induction false} KeptMembers(data: seq<Byte>, bulkInSize: nat)
    requires bulkInSize >= 1
    ensures forall i :: 0 <= i < |data| && IsPayload(i, bulkInSize) ==>
              |Kept(data[..i], bulkInSize)| < |Kept(data, bulkInSize)| &&
              Kept(data, bulkInSize)[|Kept(data[..i], bulkInSize)|] == data[i]
  {
    forall i | 0 <= i < |data| && IsPayload(i, bulkInSize)
      ensures |Kept(data[..i], bulkInSize)| < |Kept(data, bulkInSize)|
      ensures Kept(data, bulkInSize)[|Kept(data[..i], bulkInSize)|] == data[i]
    {
      KeptStep(data, i, bulkInSize);
      KeptPrefix(data, i + 1, bulkInSize);
    }
  }

  /** A transfer of at most two bytes carries no payload, so the driver's
      check for more than two transferred bytes never changes what is kept. */
  lemma ShortTransferHasNoPayload(data: seq<Byte>, bulkInSize: nat)
    requires bulkInSize >= 1 && |data| <= 2
    ensures Kept(data, bulkInSize) == []
  {
    if |data| > 0 {
      assert data[..|data| - 1][..0] == [];
    }
  }

  lemma PacketStart(b: nat)
    requires b >= 1
    ensures PacketPos(0, b) == 0
  {
  }

  /** The header bytes come in pairs: the byte after a packet start is never
      payload. */
  lemma HeaderPair(i: nat, bulkInSize: nat)
    requires bulkInSize >= 1 && PacketPos(i, bulkInSize) == 0
    ensures !IsPayload(i + 1, bulkInSize)
  {
    ModNext(i, bulkInSize);
  }

  /** Positions within a packet advance by one and wrap to 0. */
  lemma ModNext(i: nat, b: nat)
    requires b >= 1
    ensures PacketPos(i + 1, b) == if PacketPos(i, b) == b - 1 then 0 else PacketPos(i, b) + 1
  {
    if i % b == b - 1 {
      ModUnique(i + 1, b, i / b + 1, 0);
    } else {
      ModUnique(i + 1, b, i / b, i % b + 1);
    }
  }

  /** The strip loop of chip_read_data: append the payload bytes of one
      transfer to buff, skipping the two header bytes at every packet start,
      and stop as soon as buff holds length bytes. */
  method StripPacket(data: seq<Byte>, bulkInSize: nat, buff: seq<Byte>, length: nat) returns (buff': seq<Byte>)
    requires bulkInSize >= 1 && |buff| < length
    ensures buff' == buff + Take(Kept(data, bulkInSize), length - |buff|)
  {
    hide PacketPos;
    buff' := buff;
    var i := 0;
    PacketStart(bulkInSize);
    while i < |data|
      invariant 0 <= i <= |data| + 1
      invariant buff' == buff + Kept(data[..if i <= |data| then i else |data|], bulkInSize)
      invariant |buff'| < length
      invariant PacketPos(i, bulkInSize) != 1
    {
      if PacketPos(i, bulkInSize) == 0 {
        KeptStep(data, i, bulkInSize);
        HeaderPair(i, bulkInSize);
        ModNext(i, bulkInSize);
        ModNext(i + 1, bulkInSize);
        if i + 1 < |data| {
          KeptStep(data, i + 1, bulkInSize);
        }
        i := i + 1;
      } else {
        ModNext(i, bulkInSize);
        KeptStep(data, i, bulkInSize);
        buff' := buff' + [data[i]];
        if |buff'| >= length {
          KeptPrefix(data, i + 1, bulkInSize);
          break;
        }
      }
      i := i + 1;
    }
    if i >= |data| {
      assert data[..|data|] == data;
    }
  }

  /** The result of a read or an exchange: status, the bytes collected, and
      the transfers not consumed. */
  datatype ReadResult = ReadResult(status: int, data: seq<Byte>, rest: seq<ReadOutcome>)

  /** Whether a read outcome ends the read with an error before its data is
      looked at. */
  predicate ReadFails(o: ReadOutcome)
  {
    o.shutDown || o.status != SUCCESS || |o.data| > UsbBufferSize
  }

  /** The payload one transfer contributes when nothing stops the read. */
  function Gated(o: ReadOutcome, bulkInSize: nat): seq<Byte>
    requires bulkInSize >= 1
  {
    if ReadFails(o) || |o.data| <= 2 then [] else Kept(o.data, bulkInSize)
  }

  /** The payload of a run of transfers, concatenated in order. */
  function Payload(inbound: seq<ReadOutcome>, bulkInSize: nat): seq<Byte>
    requires bulkInSize >= 1
  {
    if |inbound| == 0 then [] else Gated(inbound[0], bulkInSize) + Payload(inbound[1..], bulkInSize)
  }

  /** chip_read_data: read transfers until length payload bytes are collected
      or the elapsed time reaches the timeout; stop at once on shutdown, on a
      USB error (returned as is) and on an oversized transfer (-EFAULT).
      collected is what earlier iterations of the loop gathered. */
  function ChipRead(inbound: seq<ReadOutcome>, bulkInSize: nat, length: nat, timeoutSecs: int,
                    collected: seq<Byte>): (r: ReadResult)
    requires bulkInSize >= 1 && |collected| < length
    ensures |collected| <= |r.data| <= length && r.data[..|collected|] == collected
    ensures r.status == SUCCESS <==> |r.data| == length
    ensures |r.rest| <= |inbound| && r.rest == inbound[|inbound| - |r.rest|..]
    ensures |inbound| > 0 ==> |r.rest| < |inbound|
    decreases |inbound|
  {
    if |inbound| == 0 then
      ReadResult(-ETIMEDOUT, collected, [])
    else
      var o := inbound[0];
      if ReadFails(o) then
        var status := if o.shutDown then -EPERM else if o.status != SUCCESS then o.status else -EFAULT;
        ReadResult(status, collected, inbound[1..])
      else
        var c := if |o.data| > 2 then collected + Take(Kept(o.data, bulkInSize), length - |collected|) else collected;
        assert c[..|collected|] == collected;
        if |c| < length && o.elapsed < timeoutSecs then
          var r := ChipRead(inbound[1..], bulkInSize, length, timeoutSecs, c);
          assert r.data[..|collected|] == r.data[..|c|][..|collected|];
          r
        else if |c| != length then
          ReadResult(-ETIMEDOUT, c, inbound[1..])
        else
          ReadResult(SUCCESS, c, inbound[1..])
  }

  lemma PayloadCons(o: ReadOutcome, rest: seq<ReadOutcome>, bulkInSize: nat)
    requires bulkInSize >= 1
    ensures Payload([o] + rest, bulkInSize) == Gated(o, bulkInSize) + Payload(rest, bulkInSize)
  {
    assert ([o] + rest)[1..] == rest;
  }

  /** What a read collects is the concatenated payload of the transfers it
      consumed, cut off at length bytes. */
  lemma {:induction false} ChipReadCollectsPayload(inbound: seq<ReadOutcome>, bulkInSize: nat, length: nat,
                                                  timeoutSecs: int, collected: seq<Byte>)
    requires bulkInSize >= 1 && |collected| < length
    ensures var r := ChipRead(inbound, bulkInSize, length, timeoutSecs, collected);
            r.data == collected + Take(Payload(inbound[..|inbound| - |r.rest|], bulkInSize), length - |collected|)
    decreases |inbound|
  {
    hide Kept;
    var r := ChipRead(inbound, bulkInSize, length, timeoutSecs, collected);
    if |inbound| == 0 {
      assert inbound[..0] == [];
    } else {
      var o := inbound[0];
      var used := inbound[1..][..|inbound| - 1 - |r.rest|];
      assert inbound[..|inbound| - |r.rest|] == [o] + used;
      PayloadCons(o, used, bulkInSize);
      if ReadFails(o) {
        assert r.data == collected && |used| == 0;
      } else {
        if |o.data| <= 2 {
          ShortTransferHasNoPayload(o.data, bulkInSize);
        }
        var c := if |o.data| > 2 then collected + Take(Kept(o.data, bulkInSize), length - |collected|) else collected;
        assert c == collected + Take(Gated(o, bulkInSize), length - |collected|);
        if |c| < length && o.elapsed < timeoutSecs {
          assert r == ChipRead(inbound[1..], bulkInSize, length, timeoutSecs, c);
          ChipReadCollectsPayload(inbound[1..], bulkInSize, length, timeoutSecs, c);
          hide ChipRead, Payload, Gated, Take;
          assert r.data == c + Take(Payload(used, bulkInSize), length - |c|);
          ContinuedRead(collected, Gated(o, bulkInSize), Payload(used, bulkInSize), r.data, length);
        } else {
          assert r.data == c && |used| == 0;
          assert Gated(o, bulkInSize) + [] == Gated(o, bulkInSize);
        }
      }
    }
  }

  /** A read that continues after a transfer has taken all of its payload. */
  lemma ContinuedRead(collected: seq<Byte>, first: seq<Byte>, more: seq<Byte>, data: seq<Byte>, length: nat)
    requires |collected + Take(first, length - |collected|)| < length
    requires data == collected + Take(first, length - |collected|) +
                     Take(more, length - |collected + Take(first, length - |collected|)|)
    ensures data == collected + Take(first + more, length - |collected|)
  {
    assert Take(first, length - |collected|) == first;
    TakeAppend(first, more, length - |collected|);
  }

  /** chip_read_data starting with an empty response buffer. */
  function ChipReadData(inbound: seq<ReadOutcome>, bulkInSize: nat, length: nat, timeoutSecs: int): (r: ReadResult)
    requires bulkInSize >= 1 && length >= 1
    ensures r.status == SUCCESS <==> |r.data| == length
    ensures |r.rest| <= |inbound| && r.rest == inbound[|inbound| - |r.rest|..]
    ensures r.data == Take(Payload(inbound[..|inbound| - |r.rest|], bulkInSize), length)
  {
    ChipReadCollectsPayload(inbound, bulkInSize, length, timeoutSecs, []);
    ChipRead(inbound, bulkInSize, length, timeoutSecs, [])
  }

  /** The result of one command/response exchange and the transfers left. */
  datatype Exchange = Exchange(status: int, response: seq<Byte>, usb: Usb)

  /** Whether a send outcome delivered the whole command. */
  predicate SendDelivers(o: SendOutcome, sizeSnd: int)
  {
    o.status == SUCCESS && o.actual == sizeSnd
  }

  /** The retry loop of snd_rcv_usb_data from attempt number retry on: each
      attempt aborts with -EPERM if shutdown was seen, sends the command and,
      when all of it went out, reads sizeRcv bytes plus a trailing device
      status byte; only a complete response with status byte 0 ends the loop
      with success.  An exhausted retry budget gives -ETIMEDOUT, whatever
      the last attempt returned. */
  function SndRcv(usb: Usb, bulkInSize: nat, sizeSnd: int, sizeRcv: nat, timeoutSecs: int, retry: nat): (r: Exchange)
    requires bulkInSize >= 1
    ensures r.status == SUCCESS || r.status == -EPERM || r.status == -ETIMEDOUT
    ensures r.status == SUCCESS ==> |r.response| == sizeRcv + 1 && r.response[sizeRcv] == 0
    ensures retry >= UsbReadMaxRetryCnt ==> r.status == -ETIMEDOUT
    ensures retry < UsbReadMaxRetryCnt && |usb.outbound| > 0 && usb.outbound[0].shutDown ==> r.status == -EPERM
    ensures retry <= UsbReadMaxRetryCnt ==> |usb.outbound| - |r.usb.outbound| <= UsbReadMaxRetryCnt - retry
    ensures r.status == -EPERM ==> exists i :: 0 <= i < |usb.outbound| && usb.outbound[i].shutDown
    decreases UsbReadMaxRetryCnt - retry
  {
    if retry >= UsbReadMaxRetryCnt then
      Exchange(-ETIMEDOUT, [], usb)
    else if |usb.outbound| == 0 then
      // no transfer goes out: the send times out and the attempt is retried
      SndRcv(usb, bulkInSize, sizeSnd, sizeRcv, timeoutSecs, retry + 1)
    else
      var o := usb.outbound[0];
      var next := usb.(outbound := usb.outbound[1..]);
      if o.shutDown then
        Exchange(-EPERM, [], next)
      else if SendDelivers(o, sizeSnd) then
        var rd := ChipReadData(usb.inbound, bulkInSize, sizeRcv + 1, timeoutSecs);
        if rd.status == SUCCESS && rd.data[sizeRcv] == 0 then
          Exchange(SUCCESS, rd.data, next.(inbound := rd.rest))
        else
          SndRcv(next.(inbound := rd.rest), bulkInSize, sizeSnd, sizeRcv, timeoutSecs, retry + 1)
      else
        SndRcv(next, bulkInSize, sizeSnd, sizeRcv, timeoutSecs, retry + 1)
  }

  /** The transfers an exchange leaves unread are a suffix of the inbound
      transfers it was given, and a successful exchange returns the first
      sizeRcv + 1 payload bytes of the transfers its last attempt read: those
      from some position k up to where the exchange stopped reading. */
  predicate Responds(inbound: seq<ReadOutcome>, r: Exchange, bulkInSize: nat, sizeRcv: nat)
    requires bulkInSize >= 1
  {
    var n := |inbound| - |r.usb.inbound|;
    && |r.usb.inbound| <= |inbound| && r.usb.inbound == inbound[n..]
    && (r.status == SUCCESS ==>
          exists k :: 0 <= k <= n && r.response == Take(Payload(inbound[k..n], bulkInSize), sizeRcv + 1))
  }

  /** An exchange that responds to a suffix of the inbound transfers responds
      to the whole of them. */
  lemma RespondsLater(inbound: seq<ReadOutcome>, rest: seq<ReadOutcome>, r: Exchange, bulkInSize: nat, sizeRcv: nat)
    requires bulkInSize >= 1
    requires |rest| <= |inbound| && rest == inbound[|inbound| - |rest|..]
    requires Responds(rest, r, bulkInSize, sizeRcv)
    ensures Responds(inbound, r, bulkInSize, sizeRcv)
  {
    var m := |inbound| - |rest|;
    var n := |inbound| - |r.usb.inbound|;
    assert inbound[m..][|rest| - |r.usb.inbound|..] == inbound[n..];
    if r.status == SUCCESS {
      var k' :| 0 <= k' <= |rest| - |r.usb.inbound| &&
                r.response == Take(Payload(rest[k'..|rest| - |r.usb.inbound|], bulkInSize), sizeRcv + 1);
      assert rest[k'..|rest| - |r.usb.inbound|] == inbound[m + k'..n];
    }
  }

  /** Every exchange of the retry loop responds to the inbound transfers it
      was given. */
  lemma {:induction false} SndRcvResponse(usb: Usb, bulkInSize: nat, sizeSnd: int, sizeRcv: nat, timeoutSecs: int, retry: nat)
    requires bulkInSize >= 1
    ensures Responds(usb.inbound, SndRcv(usb, bulkInSize, sizeSnd, sizeRcv, timeoutSecs, retry), bulkInSize, sizeRcv)
    decreases UsbReadMaxRetryCnt - retry
  {
    hide ChipReadData, Payload, Take;
    var r := SndRcv(usb, bulkInSize, sizeSnd, sizeRcv, timeoutSecs, retry);
    if retry >= UsbReadMaxRetryCnt {
      assert usb.inbound[0..] == usb.inbound;
    } else if |usb.outbound| == 0 {
      SndRcvResponse(usb, bulkInSize, sizeSnd, sizeRcv, timeoutSecs, retry + 1);
    } else {
      var o := usb.outbound[0];
      var next := usb.(outbound := usb.outbound[1..]);
      if o.shutDown {
        assert usb.inbound[0..] == usb.inbound;
      } else if SendDelivers(o, sizeSnd) {
        var rd := ChipReadData(usb.inbound, bulkInSize, sizeRcv + 1, timeoutSecs);
        if rd.status == SUCCESS && rd.data[sizeRcv] == 0 {
          assert usb.inbound[0..|usb.inbound| - |rd.rest|] == usb.inbound[..|usb.inbound| - |rd.rest|];
        } else {
          hide Responds;
          SndRcvResponse(next.(inbound := rd.rest), bulkInSize, sizeSnd, sizeRcv, timeoutSecs, retry + 1);
          assert r == SndRcv(next.(inbound := rd.rest), bulkInSize, sizeSnd, sizeRcv, timeoutSecs, retry + 1);
          RespondsLater(usb.inbound, rd.rest, r, bulkInSize, sizeRcv);
        }
      } else {
        SndRcvResponse(next, bulkInSize, sizeSnd, sizeRcv, timeoutSecs, retry + 1);
      }
    }
  }

  /** snd_rcv_usb_data: the exchange from the first attempt. */
  function SndRcvUsbData(usb: Usb, bulkInSize: nat, sizeSnd: int, sizeRcv: nat, timeoutSecs: int): (r: Exchange)
    requires bulkInSize >= 1
    ensures r.status == SUCCESS || r.status == -EPERM || r.status == -ETIMEDOUT
    ensures r.status == SUCCESS ==> |r.response| == sizeRcv + 1 && r.response[sizeRcv] == 0
    ensures |usb.outbound| - |r.usb.outbound| <= UsbReadMaxRetryCnt
    ensures r.status == -EPERM ==> exists i :: 0 <= i < |usb.outbound| && usb.outbound[i].shutDown
    ensures |r.usb.inbound| <= |usb.inbound| && r.usb.inbound == usb.inbound[|usb.inbound| - |r.usb.inbound|..]
    ensures var n := |usb.inbound| - |r.usb.inbound|;
            r.status == SUCCESS ==>
              exists k :: 0 <= k <= n && r.response == Take(Payload(usb.inbound[k..n], bulkInSize), sizeRcv + 1)
  {
    SndRcvResponse(usb, bulkInSize, sizeSnd, sizeRcv, timeoutSecs, 0);
    SndRcv(usb, bulkInSize, sizeSnd, sizeRcv, timeoutSecs, 0)
  }

  /** A device that never completes a response, on a channel where shutdown is
      not seen, makes the exchange fail with -ETIMEDOUT. */
  lemma {:induction false} SilentDeviceTimesOut(usb: Usb, bulkInSize: nat, sizeSnd: int, sizeRcv: nat,
                                                timeoutSecs: int, retry: nat)
    requires bulkInSize >= 1
    requires forall i :: 0 <= i < |usb.outbound| ==> !usb.outbound[i].shutDown
    requires forall i :: 0 <= i < |usb.inbound| ==> usb.inbound[i].status != SUCCESS
    ensures SndRcv(usb, bulkInSize, sizeSnd, sizeRcv, timeoutSecs, retry).status == -ETIMEDOUT
    decreases UsbReadMaxRetryCnt - retry
  {
    if retry < UsbReadMaxRetryCnt {
      if |usb.outbound| == 0 {
        SilentDeviceTimesOut(usb, bulkInSize, sizeSnd, sizeRcv, timeoutSecs, retry + 1);
      } else {
        var next := usb.(outbound := usb.outbound[1..]);
        if SendDelivers(usb.outbound[0], sizeSnd) {
          var rd := ChipReadData(usb.inbound, bulkInSize, sizeRcv + 1, timeoutSecs);
          SilentReadFails(usb.inbound, bulkInSize, sizeRcv + 1, timeoutSecs);
          SilentDeviceTimesOut(next.(inbound := rd.rest), bulkInSize, sizeSnd, sizeRcv, timeoutSecs, retry + 1);
        } else {
          SilentDeviceTimesOut(next, bulkInSize, sizeSnd, sizeRcv, timeoutSecs, retry + 1);
        }
      }
    }
  }

  /** A read whose transfers all fail collects nothing. */
  lemma SilentReadFails(inbound: seq<ReadOutcome>, bulkInSize: nat, length: nat, timeoutSecs: int)
    requires bulkInSize >= 1 && length >= 1
    requires forall i :: 0 <= i < |inbound| ==> inbound[i].status != SUCCESS
    ensures ChipReadData(inbound, bulkInSize, length, timeoutSecs).status != SUCCESS
    ensures forall i :: 0 <= i < |ChipReadData(inbound, bulkInSize, length, timeoutSecs).rest| ==>
              ChipReadData(inbound, bulkInSize, length, timeoutSecs).rest[i].status != SUCCESS
  {
  }

  /** The byte the device reads as "send random bytes". */
  const RefillOpcode: Byte := 0x78 // 'x'

  /** The 3-byte refill command: the opcode, then the byte count as a 16-bit
      little-endian number. */
  function RefillCommand(count: nat): (cmd: seq<Byte>)
    ensures |cmd| == 3 && cmd[0] == RefillOpcode
    ensures cmd[1] as int + 256 * cmd[2] as int == count % 0x1_0000
    ensures count <= 0xFFFF ==> CommandCount(cmd) == count
  {
    var byteCnt := count % 0x1_0000;
    [RefillOpcode, byteCnt % 0x100, byteCnt / 0x100]
  }

  /** The byte count a refill command asks for. */
  function CommandCount(cmd: seq<Byte>): nat
    requires |cmd| == 3
  {
    cmd[1] as nat + 256 * cmd[2] as nat
  }

  /** The command for a count decodes back to it, and two counts give the same
      command only if they are equal. */
  lemma RefillCommandInjective(a: nat, b: nat)
    requires a <= 0xFFFF && b <= 0xFFFF
    ensures RefillCommand(a) == RefillCommand(b) <==> a == b
  {
    if RefillCommand(a) == RefillCommand(b) {
      assert CommandCount(RefillCommand(a)) == CommandCount(RefillCommand(b));
    }
  }
}
