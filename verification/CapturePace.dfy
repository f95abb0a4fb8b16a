/** How often the capture thread of src/server/server.rs captures: it polls
    capture_frame of src/server/screen_capture.rs, which keeps its own interval. */
module CapturePace {
  import opened Basics
  import opened Spacing
  import opened Windows

  /** capture_frame's own limit: 1000 / 30 ms, set once by ScreenCapture::new(30). */
  const FRAME_INTERVAL: nat := 1000 / 30 * NANOS_PER_MILLI

  /** The thread's sleep after each call. */
  const POLL: nat := 16 * NANOS_PER_MILLI

  /** One call of capture_frame: when it reads the clock, when it reads it again
      after grabbing, and whether the screen had a frame to give. */
  datatype Poll = Poll(elapsedAt: nat, takenAt: nat, available: bool)

  predicate Captures(last: nat, q: Poll) { q.elapsedAt - last >= FRAME_INTERVAL && q.available }

  /** The times of the captures made by a sequence of calls, from creation at t0. */
  function Captured(t0: nat, polls: seq<Poll>): seq<nat> {
    if polls == [] then []
    else
      var taken, q := Captured(t0, polls[..|polls| - 1]), polls[|polls| - 1];
      if Captures(LastOf(t0, taken), q) then taken + [q.takenAt] else taken
  }

  function LastOf(t0: nat, taken: seq<nat>): nat { if taken == [] then t0 else taken[|taken| - 1] }

  function LastPoll(t0: nat, polls: seq<Poll>): nat { if polls == [] then t0 else polls[|polls| - 1].takenAt }

  /** The calls are at least the sleep apart. */
  predicate LegalPolls(t0: nat, polls: seq<Poll>) {
    && (forall i | 0 <= i < |polls| :: polls[i].elapsedAt <= polls[i].takenAt && t0 <= polls[i].elapsedAt)
    && (forall i | 0 < i < |polls| :: polls[i - 1].takenAt + POLL <= polls[i].elapsedAt)
  }

  /** One call more: it captures exactly when 33 ms have passed since the last capture,
      or since creation, and the screen has a frame. */
  lemma CallWrittenOut(t0: nat, polls: seq<Poll>, q: Poll)
    ensures Captured(t0, []) == []
    ensures var taken := Captured(t0, polls);
            var last := if taken == [] then t0 else taken[|taken| - 1];
            Captured(t0, polls + [q]) ==
            if q.available && q.elapsedAt - last >= 33_000_000 then taken + [q.takenAt] else taken
  {
    assert (polls + [q])[..|polls|] == polls;
  }

  /** Captures are at least 33 ms apart, and the first comes 33 ms after creation. */
  lemma {:induction false} CapturesSpaced(t0: nat, polls: seq<Poll>)
    requires LegalPolls(t0, polls)
    ensures Spaced(Captured(t0, polls), FRAME_INTERVAL)
    ensures forall i | 0 <= i < |Captured(t0, polls)| ::
              t0 + FRAME_INTERVAL <= Captured(t0, polls)[i] <= LastOf(t0, Captured(t0, polls))
  {
    if polls != [] {
      var init, q := polls[..|polls| - 1], polls[|polls| - 1];
      CapturesSpaced(t0, init);
      var taken := Captured(t0, init);
      if Captures(LastOf(t0, taken), q) {
        SpacedAppended(taken, FRAME_INTERVAL, q.takenAt);
        hide Spaced;
      }
    }
  }

  lemma SpacedAppended(times: seq<nat>, gap: nat, t: nat)
    requires Spaced(times, gap) && forall i | 0 <= i < |times| :: times[i] + gap <= t
    ensures Spaced(times + [t], gap)
  {
  }

  // ---------- A steady pace ----------

  /** When the n-th capture happens. */
  function CaptureTime(t: nat, gap: nat, n: nat): nat {
    if n == 0 then t else CaptureTime(t, gap, n - 1) + gap
  }

  function CaptureTimes(t: nat, gap: nat, n: nat): seq<nat> {
    if n == 0 then [] else CaptureTimes(t, gap, n - 1) + [CaptureTime(t, gap, n)]
  }

  /** One call for each capture of a steady pace. */
  function SteadyPolls(t0: nat, gap: nat, n: nat): (polls: seq<Poll>)
    ensures |polls| == n
  {
    if n == 0 then []
    else SteadyPolls(t0, gap, n - 1) + [Poll(CaptureTime(t0, gap, n), CaptureTime(t0, gap, n), true)]
  }

  lemma {:induction false} SteadyPollsCapture(t0: nat, gap: nat, n: nat)
    requires gap >= FRAME_INTERVAL
    ensures var polls := SteadyPolls(t0, gap, n);
            && LegalPolls(t0, polls) && Captured(t0, polls) == CaptureTimes(t0, gap, n)
            && LastOf(t0, CaptureTimes(t0, gap, n)) == LastPoll(t0, polls) == CaptureTime(t0, gap, n) >= t0
  {
    if n > 0 {
      SteadyPollsCapture(t0, gap, n - 1);
      var init, t := SteadyPolls(t0, gap, n - 1), CaptureTime(t0, gap, n);
      assert CaptureTimes(t0, gap, n) == CaptureTimes(t0, gap, n - 1) + [t];
      assert SteadyPolls(t0, gap, n) == init + [Poll(t, t, true)];
      hide SteadyPolls, CaptureTimes;
      PollAppended(t0, init, Poll(t, t, true));
    }
  }

  lemma NoPolls(t0: nat)
    ensures LegalPolls(t0, []) && Captured(t0, []) == []
  {
  }

  lemma PollAppended(t0: nat, polls: seq<Poll>, q: Poll)
    requires LegalPolls(t0, polls) && t0 <= q.elapsedAt <= q.takenAt
    requires polls != [] ==> LastPoll(t0, polls) + POLL <= q.elapsedAt
    ensures LegalPolls(t0, polls + [q]) && LastPoll(t0, polls + [q]) == q.takenAt
    ensures var taken := Captured(t0, polls);
            Captured(t0, polls + [q]) == if Captures(LastOf(t0, taken), q) then taken + [q.takenAt] else taken
  {
    assert (polls + [q])[..|polls|] == polls;
  }

  /** A steady pace is one the capture thread can keep if and only if it is 33 ms or slower. */
  lemma SteadyPaceIff(t0: nat, gap: nat, n: nat)
    requires n > 0
    ensures (exists polls :: LegalPolls(t0, polls) && Captured(t0, polls) == CaptureTimes(t0, gap, n))
            <==> gap >= FRAME_INTERVAL
  {
    if gap >= FRAME_INTERVAL {
      SteadyPollsCapture(t0, gap, n);
    }
    if polls :| LegalPolls(t0, polls) && Captured(t0, polls) == CaptureTimes(t0, gap, n) {
      CapturesSpaced(t0, polls);
      FirstOfPace(t0, gap, n);
    }
  }

  lemma {:induction false} FirstOfPace(t0: nat, gap: nat, n: nat)
    requires n > 0
    ensures |CaptureTimes(t0, gap, n)| == n && CaptureTimes(t0, gap, n)[0] == t0 + gap
  {
    if n > 1 {
      FirstOfPace(t0, gap, n - 1);
    } else {
      assert CaptureTimes(t0, gap, 0) == [] && CaptureTime(t0, gap, 0) == t0;
    }
  }

  // ---------- The object ----------

  /** The part of ScreenCapture that paces the captures. */
  class CaptureLimiter {
    const created: nat
    var lastFrameTime: nat
    var frameCount: nat
    ghost var polls: seq<Poll>

    ghost predicate Valid() reads this {
      && LegalPolls(created, polls)
      && lastFrameTime == LastOf(created, Captured(created, polls)) && frameCount == |Captured(created, polls)|
    }

    constructor (now: nat)
      ensures Valid() && created == now && polls == []
    {
      created, lastFrameTime, frameCount, polls := now, now, 0, [];
    }

    /** One call of capture_frame, at least the sleep after the one before. */
    method CaptureFrame(q: Poll) returns (captured: bool)
      requires Valid() && created <= q.elapsedAt <= q.takenAt
      requires polls != [] ==> LastPoll(created, polls) + POLL <= q.elapsedAt
      modifies this
      ensures Valid() && polls == old(polls) + [q]
      ensures captured <==> Captured(created, polls) == Captured(created, old(polls)) + [q.takenAt]
      ensures !captured ==> Captured(created, polls) == Captured(created, old(polls))
    {
      PollAppended(created, polls, q);
      hide Captured, LegalPolls;
      polls := polls + [q];
      if q.elapsedAt - lastFrameTime < FRAME_INTERVAL {
        return false;
      }
      if !q.available {
        return false;
      }
      lastFrameTime := q.takenAt;
      frameCount := frameCount + 1;
      captured := true;
    }
  }
}
