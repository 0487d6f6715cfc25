/**
  The repetition count test: a continuous health test over the conditioned
  output bytes.  It counts runs of identical bytes; every fifth repetition
  within a run is a failure, and once the failures since the last restart reach
  the consecutive-failure threshold the status byte latches to the test's
  signature.  The latch is sticky: restarting the counters never clears it,
  only the module-load initialisation does.
 */
module RepetitionCount {
  import opened Words
  import opened Config

  /** The value the status byte latches to on failure. */
  const Signature: Byte := 1

  /** Repetitions of one byte that count as a failure. */
  const MaxRepetitions: nat := 5

  /** The test's state record.  The signature and the repetition limit are
      constants of the test and the never-read failure window is omitted. */
  datatype Rct = Rct(
    isInitialized: bool,
    lastSample: Byte,
    curRepetitions: nat,
    failureCount: nat,
    statusByte: Byte)

  /** The status byte is clear or holds the signature, the repetition counter
      stays within 1 .. MaxRepetitions - 1, and a failure count at the
      threshold has latched the status. */
  predicate Valid(s: Rct)
  {
    && (s.statusByte == 0 || s.statusByte == Signature)
    && 1 <= s.curRepetitions < MaxRepetitions
    && (s.failureCount >= NumConsecFailThreshold ==> s.statusByte == Signature)
  }

  /** Start a new block of samples: counters cleared, status untouched. */
  function Restart(s: Rct): (r: Rct)
    ensures !r.isInitialized && r.curRepetitions == 1 && r.failureCount == 0
    ensures r.statusByte == s.statusByte
    ensures s.statusByte == 0 || s.statusByte == Signature ==> Valid(r)
  {
    s.(isInitialized := false, curRepetitions := 1, failureCount := 0)
  }

  /** Module-load initialisation: the zeroed record, restarted. */
  function Initialize(): (r: Rct)
    ensures Valid(r) && r.statusByte == 0
    ensures r == Restart(r)
  {
    Restart(Rct(false, 0, 0, 0, 0))
  }

  /** Feed one output byte to the test. */
  function Sample(s: Rct, value: Byte): (r: Rct)
    ensures Valid(s) ==> Valid(r)
    ensures r.isInitialized && r.lastSample == value
    ensures r.failureCount >= s.failureCount
    ensures s.statusByte != 0 ==> r.statusByte == s.statusByte
    ensures r.statusByte != s.statusByte ==>
              s.statusByte == 0 && r.statusByte == Signature && r.failureCount >= NumConsecFailThreshold
    ensures s.isInitialized && s.lastSample != value ==> r == s.(lastSample := value, curRepetitions := 1)
  {
    if !s.isInitialized then
      s.(isInitialized := true, lastSample := value)
    else if s.lastSample == value then
      var reps := s.curRepetitions + 1;
      if reps >= MaxRepetitions then
        var failures := s.failureCount + 1;
        var status := if failures >= NumConsecFailThreshold && s.statusByte == 0 then Signature else s.statusByte;
        s.(curRepetitions := 1, failureCount := failures, statusByte := status)
      else
        s.(curRepetitions := reps)
    else
      s.(lastSample := value, curRepetitions := 1)
  }

  /** Feed a sequence of bytes, first to last. */
  function Run(s: Rct, xs: seq<Byte>): Rct
  {
    if |xs| == 0 then s else Sample(Run(s, xs[..|xs| - 1]), xs[|xs| - 1])
  }

  /** Running the test keeps the state valid, never lowers the failure count
      and never changes a latched status. */
  lemma {:induction false} RunInvariant(s: Rct, xs: seq<Byte>)
    requires Valid(s)
    ensures Valid(Run(s, xs))
    ensures Run(s, xs).failureCount >= s.failureCount
    ensures s.statusByte != 0 ==> Run(s, xs).statusByte == s.statusByte
  {
    if |xs| > 0 {
      RunInvariant(s, xs[..|xs| - 1]);
    }
  }

  /** Length of the run of identical bytes that ends xs. */
  function TrailingRun(xs: seq<Byte>): (n: nat)
    requires |xs| > 0
    ensures 1 <= n <= |xs|
  {
    if |xs| == 1 || xs[|xs| - 2] != xs[|xs| - 1] then 1 else TrailingRun(xs[..|xs| - 1]) + 1
  }

  /** TrailingRun is the maximal suffix of equal bytes. */
  lemma {:induction false} TrailingRunIsMaximal(xs: seq<Byte>)
    requires |xs| > 0
    ensures forall i :: |xs| - TrailingRun(xs) <= i < |xs| ==> xs[i] == xs[|xs| - 1]
    ensures TrailingRun(xs) < |xs| ==> xs[|xs| - 1 - TrailingRun(xs)] != xs[|xs| - 1]
  {
    if |xs| > 1 && xs[|xs| - 2] == xs[|xs| - 1] {
      var ys := xs[..|xs| - 1];
      TrailingRunIsMaximal(ys);
      assert forall i :: |ys| - TrailingRun(ys) <= i < |ys| ==> ys[i] == ys[|ys| - 1];
    }
  }

  /** Failures of a block fed after a restart: one for every position at which
      the trailing run reaches 5, 9, 13, ... identical bytes. */
  function Failures(xs: seq<Byte>): nat
  {
    if |xs| == 0 then 0
    else
      var n := TrailingRun(xs);
      Failures(xs[..|xs| - 1]) + (if n >= MaxRepetitions && (n - 1) % 4 == 0 then 1 else 0)
  }

  /** After a restart, the test's state is determined by the runs of the bytes
      fed: the repetition counter is the trailing run modulo four, the failure
      count is Failures, and the status latches exactly when Failures reaches
      the threshold (unless it was latched before). */
  lemma {:induction false} RunAfterRestart(s: Rct, xs: seq<Byte>)
    requires s.statusByte == 0 || s.statusByte == Signature
    requires |xs| > 0
    ensures Run(Restart(s), xs).isInitialized
    ensures Run(Restart(s), xs).lastSample == xs[|xs| - 1]
    ensures Run(Restart(s), xs).curRepetitions == 1 + (TrailingRun(xs) - 1) % 4
    ensures Run(Restart(s), xs).failureCount == Failures(xs)
    ensures Run(Restart(s), xs).statusByte ==
              if s.statusByte != 0 then s.statusByte
              else if Failures(xs) >= NumConsecFailThreshold then Signature
              else 0
  {
    var ys := xs[..|xs| - 1];
    var x := xs[|xs| - 1];
    if |ys| == 0 {
      assert Failures(xs) == Failures(ys) + 0;
    } else {
      RunAfterRestart(s, ys);
      assert ys[|ys| - 1] == xs[|xs| - 2];
      var t := Run(Restart(s), ys);
      if x == t.lastSample {
        assert TrailingRun(xs) == TrailingRun(ys) + 1;
      } else {
        assert TrailingRun(xs) == 1;
      }
    }
  }
}
