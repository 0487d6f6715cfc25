/**
  The adaptive proportion test: a continuous health test over the conditioned
  output bytes.  A window opens with a reference byte and spans the next
  WindowSize bytes; every occurrence of the reference byte in the window beyond
  the cutoff is a cycle failure, and an occurrence within the cutoff clears the
  cycle failures.  When the cycle failures reach the consecutive-failure
  threshold the status byte latches to the test's signature, and like the
  repetition count test's latch it is never cleared by a restart.
 */
module AdaptiveProportion {
  import opened Words
  import opened Config

  /** The value the status byte latches to on failure. */
  const Signature: Byte := 2

  /** Samples counted after the reference byte before the window closes. */
  const WindowSize: nat := 64

  /** Occurrences of the reference byte a window tolerates. */
  const CutoffValue: nat := 5

  /** The test's state record; the signature, window size and cutoff are
      constants of the test. */
  datatype Apt = Apt(
    isInitialized: bool,
    firstSample: Byte,
    curRepetitions: nat,
    curSamples: nat,
    cycleFailures: nat,
    statusByte: Byte)

  /** The status byte is clear or holds the signature, cycle failures at the
      threshold have latched it, an open window has room left, and the
      reference byte has not been seen more often than samples were counted. */
  predicate Valid(s: Apt)
  {
    && (s.statusByte == 0 || s.statusByte == Signature)
    && (s.cycleFailures >= NumConsecFailThreshold ==> s.statusByte == Signature)
    && (s.isInitialized ==> s.curSamples < WindowSize)
    && s.curRepetitions <= s.curSamples
  }

  /** apt_restart_cycle: clear the cycle failures. */
  function RestartCycle(s: Apt): (r: Apt)
    ensures r.cycleFailures == 0
    ensures r == s.(cycleFailures := r.cycleFailures)
    ensures Valid(s) ==> Valid(r)
  {
    s.(cycleFailures := 0)
  }

  /** apt_restart: close the window and clear the cycle failures; the status
      is kept. */
  function Restart(s: Apt): (r: Apt)
    ensures !r.isInitialized && r.cycleFailures == 0
    ensures r.statusByte == s.statusByte
    ensures Valid(s) ==> Valid(r)
  {
    RestartCycle(s.(isInitialized := false))
  }

  /** Module-load initialisation: the zeroed record, restarted. */
  function Initialize(): (r: Apt)
    ensures Valid(r) && r.statusByte == 0
    ensures r == Restart(r)
  {
    Restart(Apt(false, 0, 0, 0, 0, 0))
  }

  /** Feed one output byte to the test. */
  function Sample(s: Apt, value: Byte): (r: Apt)
    ensures Valid(s) ==> Valid(r)
    ensures s.statusByte != 0 ==> r.statusByte == s.statusByte
    ensures r.statusByte != s.statusByte ==>
              s.statusByte == 0 && r.statusByte == Signature && r.cycleFailures >= NumConsecFailThreshold
    ensures !s.isInitialized ==>
              r == s.(isInitialized := true, firstSample := value, curRepetitions := 0, curSamples := 0)
    ensures s.isInitialized ==> r.firstSample == s.firstSample && r.curSamples == s.curSamples + 1
    ensures s.isInitialized ==> (r.isInitialized <==> s.curSamples + 1 < WindowSize)
    ensures s.isInitialized && value != s.firstSample ==>
              r.curRepetitions == s.curRepetitions && r.cycleFailures == s.cycleFailures && r.statusByte == s.statusByte
    ensures s.isInitialized && value == s.firstSample ==> r.curRepetitions == s.curRepetitions + 1
    ensures s.isInitialized && value == s.firstSample && s.curRepetitions + 1 <= CutoffValue ==>
              r.cycleFailures == 0
    ensures s.isInitialized && value == s.firstSample && s.curRepetitions + 1 > CutoffValue ==>
              r.cycleFailures == s.cycleFailures + 1
  {
    if !s.isInitialized then
      s.(isInitialized := true, firstSample := value, curRepetitions := 0, curSamples := 0)
    else
      var samples := s.curSamples + 1;
      var t := s.(curSamples := samples, isInitialized := samples < WindowSize);
      if t.firstSample == value then
        var reps := t.curRepetitions + 1;
        if reps > CutoffValue then
          var failures := t.cycleFailures + 1;
          var status := if failures >= NumConsecFailThreshold && t.statusByte == 0 then Signature else t.statusByte;
          t.(curRepetitions := reps, cycleFailures := failures, statusByte := status)
        else
          RestartCycle(t.(curRepetitions := reps))
      else
        t
  }

  /** Feed a sequence of bytes, first to last. */
  function Run(s: Apt, xs: seq<Byte>): Apt
  {
    if |xs| == 0 then s else Sample(Run(s, xs[..|xs| - 1]), xs[|xs| - 1])
  }

  /** Running the test keeps the state valid and never changes a latched
      status. */
  lemma {:induction false} RunInvariant(s: Apt, xs: seq<Byte>)
    requires Valid(s)
    ensures Valid(Run(s, xs))
    ensures s.statusByte != 0 ==> Run(s, xs).statusByte == s.statusByte
  {
    if |xs| > 0 {
      RunInvariant(s, xs[..|xs| - 1]);
    }
  }

  /** Occurrences of b in xs. */
  function Count(xs: seq<Byte>, b: Byte): (n: nat)
    ensures n <= |xs|
  {
    if |xs| == 0 then 0 else Count(xs[..|xs| - 1], b) + (if xs[|xs| - 1] == b then 1 else 0)
  }

  /** One window: a closed test fed a reference byte f and then up to
      WindowSize more bytes ys.  The window stays open until WindowSize bytes
      followed f; the repetition counter is the number of occurrences of f in
      ys; the cycle failures are carried over while f has not recurred, cleared
      by its first CutoffValue recurrences and counted beyond them; and the
      status latches exactly when those failures reach the threshold. */
  lemma {:induction false} RunWindow(s: Apt, f: Byte, ys: seq<Byte>)
    requires Valid(s) && !s.isInitialized
    requires |ys| <= WindowSize
    ensures Run(s, [f] + ys).isInitialized <==> |ys| < WindowSize
    ensures Run(s, [f] + ys).firstSample == f
    ensures Run(s, [f] + ys).curSamples == |ys|
    ensures Run(s, [f] + ys).curRepetitions == Count(ys, f)
    ensures Run(s, [f] + ys).cycleFailures ==
              if Count(ys, f) == 0 then s.cycleFailures
              else if Count(ys, f) <= CutoffValue then 0
              else Count(ys, f) - CutoffValue
    ensures Run(s, [f] + ys).statusByte ==
              if s.statusByte != 0 then s.statusByte
              else if Count(ys, f) >= CutoffValue + NumConsecFailThreshold then Signature
              else 0
  {
    var xs := [f] + ys;
    if |ys| == 0 {
      assert xs[..0] == [];
    } else {
      var zs := ys[..|ys| - 1];
      assert xs[..|xs| - 1] == [f] + zs;
      RunWindow(s, f, zs);
      RunInvariant(s, [f] + zs);
    }
  }
}
