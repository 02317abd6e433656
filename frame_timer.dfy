/** The elapsed-time step of the frame loop in main of src/rpi/main.c:
    each pass reads the microsecond clock, reports the whole milliseconds
    since the previous pass to the game's timers, and remembers the
    reading. Clock readings are parameters, in microseconds since boot. */
module FrameTimer {

  /** Whole milliseconds in a span of us microseconds (us_to_ms). */
  function ToMs(us: nat): nat
  {
    us / 1000
  }

  /** Clock readings that never go backwards. */
  predicate Ascending(times: seq<nat>)
  {
    forall i :: 0 < i < |times| ==> times[i - 1] <= times[i]
  }

  /** The milliseconds reported over frames read at times[1..], starting
      from a previous reading times[0], when each frame reports the whole
      milliseconds since the previous reading (as written). */
  function Reported(times: seq<nat>): nat
    requires Ascending(times)
  {
    if |times| <= 1 then 0
    else
      var n := |times| - 1;
      Reported(times[..n]) + ToMs(times[n] - times[n - 1])
  }

  /** As written, each frame drops the part of a millisecond it does not
      report: the reported total never exceeds the true time, and falls
      short of it by up to 999 microseconds per frame. */
  lemma {:induction false} ReportedLags(times: seq<nat>)
    requires Ascending(times) && |times| >= 1
    ensures times[0] <= times[|times| - 1]
    ensures Reported(times) * 1000 <= times[|times| - 1] - times[0]
    ensures times[|times| - 1] - times[0] - Reported(times) * 1000 <= 999 * (|times| - 1)
  {
    if |times| > 1 {
      var n := |times| - 1;
      ReportedLags(times[..n]);
    }
  }

  /** Two frames 1999 microseconds apart report 2 ms in total, although
      3998 microseconds (3 whole ms) have passed. */
  lemma ReportedLagExample()
    ensures Ascending([0, 1999, 3998])
    ensures Reported([0, 1999, 3998]) == 2
    ensures ToMs(3998 - 0) == 3
  {
    assert [0, 1999, 3998][..2] == [0, 1999];
    assert [0, 1999][..1] == [0];
  }

  /** The clock value kept after frames read at times when the previous
      reading only advances by the milliseconds reported, keeping the
      remainder for the next frame. */
  function CarriedLast(times: seq<nat>): nat
    requires Ascending(times) && |times| >= 1
  {
    if |times| == 1 then times[0]
    else
      var n := |times| - 1;
      var last := CarriedLast(times[..n]);
      last + ToMs(times[n] - Min(last, times[n])) * 1000
  }

  /** The milliseconds reported when the remainder is carried. */
  function Carried(times: seq<nat>): nat
    requires Ascending(times) && |times| >= 1
  {
    if |times| == 1 then 0
    else
      var n := |times| - 1;
      var last := CarriedLast(times[..n]);
      Carried(times[..n]) + ToMs(times[n] - Min(last, times[n]))
  }

  /** The smaller of a and b (the kept reading never passes the newest
      one, so CarriedLast and Carried subtract the kept reading itself). */
  function Min(a: nat, b: nat): nat
  {
    if a <= b then a else b
  }

  /** Carrying the remainder, the kept reading trails the newest one by
      less than a millisecond and the reported total is exactly the whole
      milliseconds that have passed, however many frames there were. */
  lemma {:induction false} CarriedExact(times: seq<nat>)
    requires Ascending(times) && |times| >= 1
    ensures CarriedLast(times) == times[0] + Carried(times) * 1000
    ensures CarriedLast(times) <= times[|times| - 1] < CarriedLast(times) + 1000
    ensures Carried(times) == ToMs(times[|times| - 1] - times[0])
  {
    if |times| > 1 {
      var n := |times| - 1;
      CarriedExact(times[..n]);
    }
  }

  /** Every prefix of readings that never go backwards never goes backwards. */
  lemma AscendingPrefix(times: seq<nat>, n: nat)
    requires Ascending(times) && n <= |times|
    ensures Ascending(times[..n])
  {
  }

  /** One more frame with the remainder carried advances the kept reading
      by the whole milliseconds since it, and reports them. */
  lemma CarriedNext(times: seq<nat>, n: nat)
    requires Ascending(times) && 1 <= n < |times|
    ensures Ascending(times[..n]) && Ascending(times[..n + 1])
    ensures CarriedLast(times[..n]) <= times[n]
    ensures CarriedLast(times[..n + 1]) == CarriedLast(times[..n]) + ToMs(times[n] - CarriedLast(times[..n])) * 1000
    ensures Carried(times[..n + 1]) == Carried(times[..n]) + ToMs(times[n] - CarriedLast(times[..n]))
  {
    AscendingPrefix(times, n);
    AscendingPrefix(times, n + 1);
    assert times[..n + 1][..n] == times[..n];
    CarriedExact(times[..n]);
  }

  /** The previous clock reading of the frame loop (last). */
  class FrameClock {
    var last: nat

    /** The reading taken just before the loop starts. */
    constructor (now: nat)
      ensures last == now
    {
      last := now;
    }

    /** One pass as written: report the whole milliseconds since the
        previous reading, then remember this reading. */
    method Tick(now: nat) returns (elapsed: nat)
      requires last <= now
      modifies this
      ensures elapsed == ToMs(now - old(last))
      ensures elapsed * 1000 <= now - old(last) < elapsed * 1000 + 1000
      ensures last == now
    {
      elapsed := ToMs(now - last);
      last := now;
    }

    /** One pass with the remainder carried: report the same whole
        milliseconds, but advance the kept reading only by them. */
    method TickCarried(now: nat) returns (elapsed: nat)
      requires last <= now
      modifies this
      ensures elapsed == ToMs(now - old(last))
      ensures elapsed * 1000 <= now - old(last) < elapsed * 1000 + 1000
      ensures last == old(last) + elapsed * 1000 && last <= now < last + 1000
    {
      elapsed := ToMs(now - last);
      last := last + elapsed * 1000;
    }

    /** The timer part of the frame loop as written, over frames read at
        times[1..] after the reading times[0] taken before the loop: the
        elapsed times handed to the game add up to Reported(times). */
    method RunFrames(times: seq<nat>) returns (total: nat)
      requires Ascending(times) && |times| >= 1 && last == times[0]
      modifies this
      ensures total == Reported(times) && last == times[|times| - 1]
    {
      total := 0;
      var i := 1;
      while i < |times|
        invariant 1 <= i <= |times|
        invariant Ascending(times[..i])
        invariant last == times[i - 1]
        invariant total == Reported(times[..i])
      {
        var elapsed := Tick(times[i]);
        assert times[..i + 1][..i] == times[..i];
        total := total + elapsed;
        i := i + 1;
      }
      assert times[..|times|] == times;
    }

    /** The same run with the remainder carried: the elapsed times add up
        to Carried(times), the whole milliseconds that have passed. */
    method RunFramesCarried(times: seq<nat>) returns (total: nat)
      requires Ascending(times) && |times| >= 1 && last == times[0]
      modifies this
      ensures total == Carried(times) && last == CarriedLast(times)
      ensures times[0] <= times[|times| - 1]
      ensures total == ToMs(times[|times| - 1] - times[0])
    {
      total := 0;
      var i := 1;
      while i < |times|
        invariant 1 <= i <= |times|
        invariant Ascending(times[..i])
        invariant last == CarriedLast(times[..i])
        invariant total == Carried(times[..i])
      {
        CarriedNext(times, i);
        var elapsed := TickCarried(times[i]);
        total := total + elapsed;
        i := i + 1;
      }
      assert times[..|times|] == times;
      CarriedExact(times);
    }
  }
}
