/** The per-session part of screen_capture_loop in src/server/server.rs: when a
    captured frame is queued to a session. */
module Pacing {
  import opened Basics
  import opened Spacing
  import opened Windows
  import opened Quality
  import opened CapturePace

  /** Duration::from_millis(1000 / target_fps), in nanoseconds. */
  function Interval(m: Mode): nat { 1000 / TargetFps(m) * NANOS_PER_MILLI }

  const SHORTEST: nat := 16 * NANOS_PER_MILLI

  lemma ShortestInterval(m: Mode)
    ensures Interval(m) >= SHORTEST
  {
  }

  /** The controller and last_frame_time, which every captured frame updates. */
  datatype Session = Session(ctl: Controller, lastTick: nat)

  /** A captured frame reaching the session, with the clock readings of its pass in
      order and whether it yields a message that serialises and encrypts; or any
      other use of the session's controller. */
  datatype Event =
    | Tick(elapsedAt: nat, changedAt: nat, now: nat, sampledAt: nat, deliverable: bool, bytes: nat)
    | Control(call: Call)

  predicate Timely(clock: nat, e: Event) {
    match e
    case Tick(a, b, c, d, _, _) => clock <= a <= b <= c <= d
    case Control(call) => Readings(clock, call)
  }

  function ClockAt(clock: nat, e: Event): nat {
    match e case Tick(_, _, _, d, _, _) => d case Control(call) => ClockAfter(clock, call)
  }

  function ModeOf(s: Session, e: Event): Mode
    requires e.Tick? && InOrder(s.ctl.samples)
  {
    Returned(s.ctl, Recommend(e.elapsedAt, e.changedAt))
  }

  /** The frame is queued: it can be sent and is not too soon after the previous tick. */
  predicate Sends(s: Session, e: Event)
    requires InOrder(s.ctl.samples)
  {
    e.Tick? && e.now - s.lastTick >= Interval(ModeOf(s, e)) && e.deliverable
  }

  function Next(s: Session, e: Event): Session
    requires InOrder(s.ctl.samples)
  {
    match e
    case Control(call) => s.(ctl := Step(s.ctl, call))
    case Tick(a, b, now, d, _, bytes) =>
      var ctl := Step(s.ctl, Recommend(a, b));
      var rtt := if now >= s.lastTick then now - s.lastTick else 0;
      Session(if Sends(s, e) then Step(ctl, Update(d, bytes, rtt)) else ctl, now)
  }

  /** One tick, with the intervals in milliseconds: 16 at Ultra, 33 at High and Medium,
      66 at Low, 100 at Minimal. A frame that is sent is recorded with its size and
      with the time since the previous tick as its round trip. */
  lemma TickWrittenOut(s: Session, e: Event)
    requires InOrder(s.ctl.samples) && e.Tick?
    ensures var m := Returned(s.ctl, Recommend(e.elapsedAt, e.changedAt));
            var millis := match m case Ultra => 16 case High => 33 case Medium => 33 case Low => 66 case Minimal => 100;
            Sends(s, e) <==> e.deliverable && e.now - s.lastTick >= millis * 1_000_000
    ensures Next(s, e).lastTick == e.now
    ensures var ctl := Step(s.ctl, Recommend(e.elapsedAt, e.changedAt));
            Next(s, e).ctl == if Sends(s, e) then Step(ctl, Update(e.sampledAt, e.bytes, e.now - s.lastTick)) else ctl
  {
    hide Asked, Step, Returned;
  }

  predicate SessionSane(s: Session, clock: nat) { s.lastTick <= clock && Sane(s.ctl, clock) }

  lemma NextKeepsSane(s: Session, clock: nat, e: Event)
    requires SessionSane(s, clock) && Timely(clock, e)
    ensures SessionSane(Next(s, e), ClockAt(clock, e))
  {
    match e {
      case Control(call) => StepKeepsSane(s.ctl, clock, call);
      case Tick(a, b, now, d, _, bytes) =>
        StepKeepsSane(s.ctl, clock, Recommend(a, b));
        var ctl := Step(s.ctl, Recommend(a, b));
        if Sends(s, e) {
          StepKeepsSane(ctl, b, Update(d, bytes, now - s.lastTick));
        }
    }
  }

  /** A session with the times at which frames were queued to it. The controller
      is created at c0, the session's frame clock at t0. */
  datatype Traffic = Traffic(s: Session, sent: seq<nat>)

  function ClockNow(t0: nat, run: seq<Event>): nat {
    if run == [] then t0 else ClockAt(ClockNow(t0, run[..|run| - 1]), run[|run| - 1])
  }

  predicate LegalEvents(t0: nat, run: seq<Event>) {
    run == [] || (LegalEvents(t0, run[..|run| - 1]) && Timely(ClockNow(t0, run[..|run| - 1]), run[|run| - 1]))
  }

  function After(c0: nat, t0: nat, run: seq<Event>): (h: Traffic)
    requires c0 <= t0 && LegalEvents(t0, run)
    ensures SessionSane(h.s, ClockNow(t0, run))
  {
    if run == [] then Traffic(Session(NewController(c0), t0), [])
    else
      var h, e := After(c0, t0, run[..|run| - 1]), run[|run| - 1];
      NextKeepsSane(h.s, ClockNow(t0, run[..|run| - 1]), e);
      Traffic(Next(h.s, e), if Sends(h.s, e) then h.sent + [e.now] else h.sent)
  }

  lemma {:induction false} SentBeforeLastTick(c0: nat, t0: nat, run: seq<Event>)
    requires c0 <= t0 && LegalEvents(t0, run)
    ensures forall i | 0 <= i < |After(c0, t0, run).sent| :: After(c0, t0, run).sent[i] <= After(c0, t0, run).s.lastTick
  {
    if run != [] {
      SentBeforeLastTick(c0, t0, run[..|run| - 1]);
      hide Step;
    }
  }

  /** A queued frame is at least its own target interval after every frame queued
      before it, even though quality may have changed in between. */
  lemma SendKeepsItsInterval(c0: nat, t0: nat, run: seq<Event>, e: Event)
    requires c0 <= t0 && LegalEvents(t0, run) && Timely(ClockNow(t0, run), e) && Sends(After(c0, t0, run).s, e)
    ensures forall i | 0 <= i < |After(c0, t0, run).sent| ::
              After(c0, t0, run).sent[i] + Interval(ModeOf(After(c0, t0, run).s, e)) <= e.now
  {
    SentBeforeLastTick(c0, t0, run);
  }

  lemma {:induction false} SendsSpaced(c0: nat, t0: nat, run: seq<Event>)
    requires c0 <= t0 && LegalEvents(t0, run)
    ensures Spaced(After(c0, t0, run).sent, SHORTEST)
  {
    if run != [] {
      var init, e := run[..|run| - 1], run[|run| - 1];
      SendsSpaced(c0, t0, init);
      var s := After(c0, t0, init).s;
      if Sends(s, e) {
        SendKeepsItsInterval(c0, t0, init, e);
        ShortestInterval(ModeOf(s, e));
        hide Interval, Step;
      }
    }
  }

  /** A window of len nanoseconds carries at most len / 16ms + 1 frames. */
  lemma SendsInWindow(c0: nat, t0: nat, run: seq<Event>, from: nat, len: nat)
    requires c0 <= t0 && LegalEvents(t0, run)
    ensures InWindow(After(c0, t0, run).sent, from, len) <= len / SHORTEST + 1
  {
    SendsSpaced(c0, t0, run);
    WindowBound(After(c0, t0, run).sent, SHORTEST, from, len);
  }

  // ---------- There is no lower bound ----------

  /** A captured frame that could be sent comes too soon after the tick before it. */
  predicate TooSoon(s: Session, e: Event)
    requires InOrder(s.ctl.samples)
  {
    e.Tick? && e.deliverable ==> e.now - s.lastTick < Interval(ModeOf(s, e))
  }

  /** Every event of the run was too soon when it came. */
  predicate AllTooSoon(c0: nat, t0: nat, run: seq<Event>)
    requires c0 <= t0 && LegalEvents(t0, run)
  {
    run == [] ||
    (AllTooSoon(c0, t0, run[..|run| - 1]) && TooSoon(After(c0, t0, run[..|run| - 1]).s, run[|run| - 1]))
  }

  /** Nothing is ever sent if and only if every frame that could be sent comes less
      than the interval of the mode in force after the previous captured frame,
      sent or not: a skipped frame restarts the interval. */
  lemma {:induction false} NeverSendsIff(c0: nat, t0: nat, run: seq<Event>)
    requires c0 <= t0 && LegalEvents(t0, run)
    ensures After(c0, t0, run).sent == [] <==> AllTooSoon(c0, t0, run)
  {
    if run != [] {
      NeverSendsIff(c0, t0, run[..|run| - 1]);
      hide Step, Interval, ModeOf, Next;
    }
  }

  /** The time of the last tick, or of the session's creation: event times alone. */
  function LastTickTime(t0: nat, run: seq<Event>): nat {
    if run == [] then t0
    else if run[|run| - 1].Tick? then run[|run| - 1].now
    else LastTickTime(t0, run[..|run| - 1])
  }

  lemma {:induction false} LastTickIs(c0: nat, t0: nat, run: seq<Event>)
    requires c0 <= t0 && LegalEvents(t0, run)
    ensures After(c0, t0, run).s.lastTick == LastTickTime(t0, run)
  {
    if run != [] {
      LastTickIs(c0, t0, run[..|run| - 1]);
      hide Step, Sends;
    }
  }

  lemma {:induction false} LegalPrefix(t0: nat, run: seq<Event>, k: nat)
    requires LegalEvents(t0, run) && k <= |run|
    ensures LegalEvents(t0, run[..k])
  {
    if k < |run| {
      LegalPrefix(t0, run[..|run| - 1], k);
      assert run[..|run| - 1][..k] == run[..k];
    } else {
      assert run[..k] == run;
    }
  }

  // ---------- A session held at one mode ----------

  /** From event k on nobody forces another mode; metrics may still arrive. */
  predicate Unforced(run: seq<Event>, k: nat) {
    forall i | k <= i < |run| :: run[i].Control? ==> !run[i].call.Force?
  }

  /** Frame i may go out, by event times alone: it can be sent and comes at least
      the interval of m after the tick before it. */
  predicate InTime(t0: nat, run: seq<Event>, i: nat, m: Mode)
    requires i < |run|
  {
    run[i].Tick? && run[i].deliverable && run[i].now - LastTickTime(t0, run[..i]) >= Interval(m)
  }

  function Passing(t0: nat, run: seq<Event>, k: nat, m: Mode): seq<nat>
    requires k <= |run|
  {
    if |run| == k then []
    else
      var n := |run| - 1;
      Passing(t0, run[..n], k, m) + (if InTime(t0, run, n, m) then [run[n].now] else [])
  }

  /** A session forced to m is sent exactly the frames that are in time for m. */
  lemma {:induction false} HeldModeSends(c0: nat, t0: nat, run: seq<Event>, k: nat, m: Mode)
    requires c0 <= t0 && LegalEvents(t0, run) && k <= |run| && LegalEvents(t0, run[..k]) && Unforced(run, k)
    requires After(c0, t0, run[..k]).s.ctl.forced == Some(m)
    ensures After(c0, t0, run).s.ctl.forced == Some(m)
    ensures After(c0, t0, run).sent == After(c0, t0, run[..k]).sent + Passing(t0, run, k, m)
  {
    if |run| == k {
      assert run[..k] == run;
    } else {
      var n := |run| - 1;
      assert run[..n][..k] == run[..k];
      UnforcedPrefix(run, k);
      LastEvent(c0, t0, run);
      hide After, Next, Sends, Interval, SessionSane, LastTickTime, LegalEvents, Passing, InTime, Unforced;
      HeldModeSends(c0, t0, run[..n], k, m);
      HeldModePasses(c0, t0, run, k, m);
      Regroup(After(c0, t0, run[..k]).sent, Passing(t0, run[..n], k, m), LastPassing(t0, run, m));
    }
  }

  lemma UnforcedPrefix(run: seq<Event>, k: nat)
    requires Unforced(run, k) && k < |run|
    ensures Unforced(run[..|run| - 1], k)
  {
  }

  lemma Regroup<T>(a: seq<T>, b: seq<T>, c: seq<T>)
    ensures a + b + c == a + (b + c)
  {
  }

  function LastPassing(t0: nat, run: seq<Event>, m: Mode): seq<nat>
    requires run != []
  {
    if InTime(t0, run, |run| - 1, m) then [run[|run| - 1].now] else []
  }

  /** The last event alone. */
  lemma HeldModePasses(c0: nat, t0: nat, run: seq<Event>, k: nat, m: Mode)
    requires c0 <= t0 && LegalEvents(t0, run) && k < |run| && Unforced(run, k) && LegalEvents(t0, run[..|run| - 1])
    requires After(c0, t0, run[..|run| - 1]).s.ctl.forced == Some(m)
    ensures After(c0, t0, run).s.ctl.forced == Some(m)
    ensures After(c0, t0, run).sent == After(c0, t0, run[..|run| - 1]).sent + LastPassing(t0, run, m)
    ensures Passing(t0, run, k, m) == Passing(t0, run[..|run| - 1], k, m) + LastPassing(t0, run, m)
  {
    var n := |run| - 1;
    LastTickIs(c0, t0, run[..n]);
    LastEvent(c0, t0, run);
    var s := After(c0, t0, run[..n]).s;
    hide After, LegalEvents, SessionSane, LastTickTime;
    HeldModeStep(s, run[n], m);
    hide Next, Sends, Interval;
  }

  lemma LastEvent(c0: nat, t0: nat, run: seq<Event>)
    requires c0 <= t0 && LegalEvents(t0, run) && run != []
    ensures var n := |run| - 1; LegalEvents(t0, run[..n])
    ensures var h, e := After(c0, t0, run[..|run| - 1]), run[|run| - 1];
            && After(c0, t0, run).s == Next(h.s, e)
            && After(c0, t0, run).sent == if Sends(h.s, e) then h.sent + [e.now] else h.sent
  {
    hide Next, Sends;
  }

  lemma HeldModeStep(s: Session, e: Event, m: Mode)
    requires InOrder(s.ctl.samples) && s.ctl.forced == Some(m) && (e.Control? ==> !e.call.Force?)
    ensures Next(s, e).ctl.forced == Some(m)
    ensures Sends(s, e) <==> e.Tick? && e.deliverable && e.now - s.lastTick >= Interval(m)
  {
    hide Asked, Interval;
  }

  lemma {:induction false} NonePassIff(t0: nat, run: seq<Event>, k: nat, m: Mode)
    requires k <= |run|
    ensures Passing(t0, run, k, m) == [] <==> forall i | k <= i < |run| :: !InTime(t0, run, i, m)
  {
    if |run| > k {
      var n := |run| - 1;
      NonePassIff(t0, run[..n], k, m);
      forall i | k <= i < n
        ensures InTime(t0, run[..n], i, m) <==> InTime(t0, run, i, m)
      {
        assert run[..n][..i] == run[..i];
      }
      hide InTime;
    }
  }

  /** A session held at mode m is sent nothing more if and only if every frame that
      could be sent comes less than the interval of m after the tick before it. */
  lemma HeldModeSilentIff(c0: nat, t0: nat, run: seq<Event>, k: nat, m: Mode)
    requires c0 <= t0 && LegalEvents(t0, run) && k <= |run| && LegalEvents(t0, run[..k]) && Unforced(run, k)
    requires After(c0, t0, run[..k]).s.ctl.forced == Some(m)
    ensures After(c0, t0, run).sent == After(c0, t0, run[..k]).sent <==>
            forall i | k <= i < |run| && run[i].Tick? && run[i].deliverable ::
              run[i].now - LastTickTime(t0, run[..i]) < Interval(m)
  {
    HeldModeSends(c0, t0, run, k, m);
    NonePassIff(t0, run, k, m);
    hide After, Interval, LegalEvents;
    var before, more := After(c0, t0, run[..k]).sent, Passing(t0, run, k, m);
    assert before + more == before <==> more == [] by {
      assert |before + more| == |before| + |more|;
    }
    forall i | k <= i < |run|
      ensures InTime(t0, run, i, m) <==>
              run[i].Tick? && run[i].deliverable && !(run[i].now - LastTickTime(t0, run[..i]) < Interval(m))
    {
    }
  }

  // ---------- A steady pace ----------

  /** A captured frame with every clock reading of its pass at the same instant. */
  function CaptureAt(t: nat, bytes: nat): Event { Tick(t, t, t, t, true, bytes) }

  /** A run continued by n captures, gap apart, from its last tick on. */
  function Steadily(pre: seq<Event>, t: nat, gap: nat, n: nat): (run: seq<Event>)
    ensures |run| == |pre| + n && run[..|pre|] == pre
  {
    if n == 0 then pre else Steadily(pre, t, gap, n - 1) + [CaptureAt(CaptureTime(t, gap, n), 0)]
  }

  predicate SteadyFrom(t0: nat, run: seq<Event>, k: nat, gap: nat) {
    forall i | k <= i < |run| :: run[i].Tick? && run[i].deliverable && run[i].now - LastTickTime(t0, run[..i]) == gap
  }

  lemma {:induction false} SteadilyIsSteady(t0: nat, pre: seq<Event>, t: nat, gap: nat, n: nat)
    requires LegalEvents(t0, pre) && ClockNow(t0, pre) == LastTickTime(t0, pre) == t
    ensures var run := Steadily(pre, t, gap, n);
            && LegalEvents(t0, run) && ClockNow(t0, run) == LastTickTime(t0, run) == CaptureTime(t, gap, n)
            && SteadyFrom(t0, run, |pre|, gap)
  {
    if n > 0 {
      var init, e := Steadily(pre, t, gap, n - 1), CaptureAt(CaptureTime(t, gap, n), 0);
      SteadilyIsSteady(t0, pre, t, gap, n - 1);
      assert Steadily(pre, t, gap, n) == init + [e];
      hide Steadily;
      EventAppended(t0, init, e);
      SteadyAppended(t0, init, |pre|, gap, e);
    }
  }

  lemma EventAppended(t0: nat, init: seq<Event>, e: Event)
    requires LegalEvents(t0, init) && Timely(ClockNow(t0, init), e)
    ensures LegalEvents(t0, init + [e]) && ClockNow(t0, init + [e]) == ClockAt(ClockNow(t0, init), e)
    ensures LastTickTime(t0, init + [e]) == if e.Tick? then e.now else LastTickTime(t0, init)
  {
    assert (init + [e])[..|init|] == init;
  }

  lemma SteadyAppended(t0: nat, init: seq<Event>, k: nat, gap: nat, e: Event)
    requires SteadyFrom(t0, init, k, gap) && e.Tick? && e.deliverable && e.now - LastTickTime(t0, init) == gap
    ensures SteadyFrom(t0, init + [e], k, gap)
  {
    var run := init + [e];
    forall i | k <= i < |run|
      ensures run[i].Tick? && run[i].deliverable && run[i].now - LastTickTime(t0, run[..i]) == gap
    {
      assert run[..i] == init[..i];
      assert init[..|init|] == init;
    }
  }

  lemma {:induction false} SteadyPassing(t0: nat, run: seq<Event>, k: nat, gap: nat, m: Mode)
    requires k <= |run| && SteadyFrom(t0, run, k, gap)
    ensures |Passing(t0, run, k, m)| == if gap >= Interval(m) then |run| - k else 0
  {
    if |run| > k {
      var n := |run| - 1;
      forall i | k <= i < n
        ensures run[..n][i] == run[i] && run[..n][..i] == run[..i]
      {
      }
      SteadyPassing(t0, run[..n], k, gap, m);
    }
  }

  /** All or nothing: captures at a fixed pace give a session forced to m every
      frame if the pace is slow enough for m and not one frame otherwise. */
  lemma SteadyAllOrNothing(c0: nat, t0: nat, m: Mode, gap: nat, n: nat)
    requires c0 <= t0
    ensures var run := Steadily([Control(Force(Some(m)))], t0, gap, n);
            && LegalEvents(t0, run)
            && |After(c0, t0, run).sent| == if gap >= Interval(m) then n else 0
  {
    hide Steadily, LegalEvents, After, Interval;
    var pre := [Control(Force(Some(m)))];
    ForcedAtStart(c0, t0, m);
    SteadilyIsSteady(t0, pre, t0, gap, n);
    var run := Steadily(pre, t0, gap, n);
    SteadyPassing(t0, run, 1, gap, m);
    assert run[..1] == pre;
    assert Unforced(run, 1) by { hide LastTickTime; }
    HeldModeSends(c0, t0, run, 1, m);
  }

  lemma ForcedAtStart(c0: nat, t0: nat, m: Mode)
    requires c0 <= t0
    ensures LegalEvents(t0, [Control(Force(Some(m)))])
    ensures ClockNow(t0, [Control(Force(Some(m)))]) == LastTickTime(t0, [Control(Force(Some(m)))]) == t0
    ensures var h := After(c0, t0, [Control(Force(Some(m)))]); h.s.ctl.forced == Some(m) && h.sent == []
  {
    assert [] + [Control(Force(Some(m)))] == [Control(Force(Some(m)))];
    EventAppended(t0, [], Control(Force(Some(m))));
    AfterAppended(c0, t0, [], Control(Force(Some(m))));
  }

  lemma AfterAppended(c0: nat, t0: nat, init: seq<Event>, e: Event)
    requires c0 <= t0 && LegalEvents(t0, init) && LegalEvents(t0, init + [e])
    ensures var h := After(c0, t0, init);
            After(c0, t0, init + [e]) == Traffic(Next(h.s, e), if Sends(h.s, e) then h.sent + [e.now] else h.sent)
  {
    assert (init + [e])[..|init|] == init;
    hide Next, Sends;
  }

  /** The arrival times of frames k, k + 1, ... */
  function Arrivals(run: seq<Event>, k: nat): (times: seq<nat>)
    requires k <= |run|
    ensures |times| == |run| - k
  {
    seq(|run| - k, i requires 0 <= i < |run| - k => if run[k + i].Tick? then run[k + i].now else 0)
  }

  lemma {:induction false} SteadyArrivals(pre: seq<Event>, t: nat, gap: nat, n: nat)
    ensures Arrivals(Steadily(pre, t, gap, n), |pre|) == CaptureTimes(t, gap, n)
  {
    if n > 0 {
      var run, init := Steadily(pre, t, gap, n), Steadily(pre, t, gap, n - 1);
      SteadyArrivals(pre, t, gap, n - 1);
      assert Arrivals(run, |pre|) == Arrivals(init, |pre|) + [CaptureTime(t, gap, n)];
    }
  }

  // ---------- Slow modes starve ----------

  const SLOW: nat := 66 * NANOS_PER_MILLI

  predicate SlowMode(m: Mode) { m == Low || m == Minimal }

  /** What the capture thread can do: captures at any fixed pace from 33 ms up to
      66 ms, each reaching the session at once. A session forced to Low or Minimal
      is sent none of them. */
  lemma SlowModeStarves(c0: nat, t0: nat, m: Mode, gap: nat, n: nat) returns (polls: seq<Poll>)
    requires c0 <= t0 && SlowMode(m) && FRAME_INTERVAL <= gap < SLOW
    ensures var run := Steadily([Control(Force(Some(m)))], t0, gap, n);
            && LegalPolls(t0, polls) && Captured(t0, polls) == Arrivals(run, 1) && |Captured(t0, polls)| == n
            && LegalEvents(t0, run) && After(c0, t0, run).sent == []
  {
    SlowInterval(m);
    hide Captured, LegalPolls, Steadily, After, LegalEvents, Interval, SlowMode, CaptureTimes;
    SteadyAllOrNothing(c0, t0, m, gap, n);
    polls := SteadyPolls(t0, gap, n);
    SteadyPollsCapture(t0, gap, n);
    SteadyArrivals([Control(Force(Some(m)))], t0, gap, n);
  }

  lemma SlowInterval(m: Mode)
    ensures SlowMode(m) <==> Interval(m) >= SLOW
    ensures !SlowMode(m) ==> Interval(m) <= FRAME_INTERVAL
  {
  }

  /** Held at Low or Minimal, by force or because that is what the metrics ask for. */
  predicate Slowed(s: Session)
    requires InOrder(s.ctl.samples)
  {
    match s.ctl.forced
    case Some(m) => SlowMode(m)
    case None => SlowMode(s.ctl.current) && SlowMode(Asked(s.ctl.samples))
  }

  lemma SlowedStays(s: Session, e: Event)
    requires InOrder(s.ctl.samples) && Slowed(s) && e.Tick? && e.now - s.lastTick < SLOW
    ensures !Sends(s, e) && Next(s, e).ctl.samples == s.ctl.samples && Slowed(Next(s, e))
  {
    SlowInterval(ModeOf(s, e));
    hide Asked, Interval;
  }

  /** Starvation: once a session is at Low or Minimal, ticks less than 66 ms apart
      never send it a frame. It gets no new sample either, so it stays where it is
      until somebody else calls its controller. */
  lemma {:induction false} SlowedStarves(c0: nat, t0: nat, run: seq<Event>, k: nat)
    requires c0 <= t0 && LegalEvents(t0, run) && k <= |run| && LegalEvents(t0, run[..k])
    requires Slowed(After(c0, t0, run[..k]).s)
    requires TicksClose(t0, run, k)
    ensures After(c0, t0, run).sent == After(c0, t0, run[..k]).sent
    ensures After(c0, t0, run).s.ctl.samples == After(c0, t0, run[..k]).s.ctl.samples && Slowed(After(c0, t0, run).s)
  {
    if |run| == k {
      assert run[..k] == run;
    } else {
      var n := |run| - 1;
      assert run[..n][..k] == run[..k];
      CloseSplits(t0, run, k);
      LastEvent(c0, t0, run);
      var s := After(c0, t0, run[..n]).s;
      assert InOrder(s.ctl.samples);
      hide After, LegalEvents, Slowed, Next, Sends, LastTickTime, InOrder, TicksClose;
      SlowedStarves(c0, t0, run[..n], k);
      LastTickIs(c0, t0, run[..n]);
      SlowedStays(s, run[n]);
    }
  }

  /** From event k on there are only ticks, each less than 66 ms after the one before. */
  predicate TicksClose(t0: nat, run: seq<Event>, k: nat) {
    forall i | k <= i < |run| :: run[i].Tick? && run[i].now - LastTickTime(t0, run[..i]) < 66_000_000
  }

  lemma CloseSplits(t0: nat, run: seq<Event>, k: nat)
    requires TicksClose(t0, run, k) && k < |run|
    ensures var n := |run| - 1;
            TicksClose(t0, run[..n], k) && run[n].Tick? && run[n].now - LastTickTime(t0, run[..n]) < SLOW
  {
    forall i | k <= i < |run| - 1
      ensures run[..|run| - 1][..i] == run[..i]
    {
    }
    hide LastTickTime;
  }

  // ---------- A session that falls silent by itself ----------

  const FIRST: nat := 250 * NANOS_PER_MILLI
  const SECOND: nat := 2250 * NANOS_PER_MILLI

  /** Two captures of a still screen: 250 ms after the session began, and two
      seconds later. */
  function StillScreen(t0: nat, b1: nat, b2: nat): seq<Event> {
    [CaptureAt(t0 + FIRST, b1), CaptureAt(t0 + SECOND, b2)]
  }

  /** Frame times are recorded as round-trip times, so a pause in the captures looks
      like a slow network: the session moves to Low. When captures then resume at
      less than 66 ms apart it is never sent a frame again, with nobody having
      forced anything. */
  lemma FallsSilent(c0: nat, t0: nat, b1: nat, b2: nat, gap: nat, n: nat)
    requires c0 <= t0 && b1 + b2 < 5_000_000 && gap < SLOW
    ensures var run := Steadily(StillScreen(t0, b1, b2), t0 + SECOND, gap, n);
            && LegalEvents(t0, run)
            && After(c0, t0, run).s.ctl.forced.None?
            && After(c0, t0, run).sent == [t0 + FIRST, t0 + SECOND]
  {
    hide Steadily, After, LegalEvents, LastTickTime, Slowed, ClockNow;
    var pre := StillScreen(t0, b1, b2);
    var run := Steadily(pre, t0 + SECOND, gap, n);
    StillScreenSlows(c0, t0, b1, b2);
    SteadilyIsSteady(t0, pre, t0 + SECOND, gap, n);
    assert run[..2] == pre;
    SteadyIsClose(t0, run, 2, gap);
    SlowedStarves(c0, t0, run, 2);
    assert Unforced(run, 0) by {
      assert run[0] == run[..2][0] && run[1] == run[..2][1];
    }
    NeverForced(c0, t0, run);
  }

  /** The capture thread can capture at just those times, at any pace from 33 ms on. */
  lemma {:induction false} StillScreenCapturable(t0: nat, b1: nat, b2: nat, gap: nat, n: nat) returns (polls: seq<Poll>)
    requires gap >= FRAME_INTERVAL
    ensures LegalPolls(t0, polls) && LastPoll(t0, polls) == CaptureTime(t0 + SECOND, gap, n) >= t0
    ensures Captured(t0, polls) != [] && LastOf(t0, Captured(t0, polls)) == CaptureTime(t0 + SECOND, gap, n)
    ensures Captured(t0, polls) == Arrivals(Steadily(StillScreen(t0, b1, b2), t0 + SECOND, gap, n), 0)
  {
    hide Captured, LegalPolls;
    var pre := StillScreen(t0, b1, b2);
    if n == 0 {
      var first, second := Poll(t0 + FIRST, t0 + FIRST, true), Poll(t0 + SECOND, t0 + SECOND, true);
      NoPolls(t0);
      PollAppended(t0, [], first);
      PollAppended(t0, [] + [first], second);
      polls := [] + [first] + [second];
      assert Arrivals(pre, 0) == [t0 + FIRST, t0 + SECOND];
    } else {
      var before := StillScreenCapturable(t0, b1, b2, gap, n - 1);
      var t := CaptureTime(t0 + SECOND, gap, n);
      PollAppended(t0, before, Poll(t, t, true));
      polls := before + [Poll(t, t, true)];
      var init := Steadily(pre, t0 + SECOND, gap, n - 1);
      assert Arrivals(init + [CaptureAt(t, 0)], 0) == Arrivals(init, 0) + [t];
    }
  }

  lemma SteadyIsClose(t0: nat, run: seq<Event>, k: nat, gap: nat)
    requires SteadyFrom(t0, run, k, gap) && gap < SLOW
    ensures TicksClose(t0, run, k)
  {
    hide LastTickTime;
  }

  /** Nobody forces a mode: then none is forced. */
  lemma {:induction false} NeverForced(c0: nat, t0: nat, run: seq<Event>)
    requires c0 <= t0 && LegalEvents(t0, run) && Unforced(run, 0)
    ensures After(c0, t0, run).s.ctl.forced.None?
  {
    if run != [] {
      NeverForced(c0, t0, run[..|run| - 1]);
      hide Asked, Sends;
    }
  }

  lemma StillScreenSlows(c0: nat, t0: nat, b1: nat, b2: nat)
    requires c0 <= t0 && b1 + b2 < 5_000_000
    ensures var pre := StillScreen(t0, b1, b2);
            && LegalEvents(t0, pre) && ClockNow(t0, pre) == LastTickTime(t0, pre) == t0 + SECOND
            && Slowed(After(c0, t0, pre).s) && After(c0, t0, pre).sent == [t0 + FIRST, t0 + SECOND]
  {
    hide After, Next, Sends, Slowed, LegalEvents, ClockNow, LastTickTime;
    var e1, e2 := CaptureAt(t0 + FIRST, b1), CaptureAt(t0 + SECOND, b2);
    TwoEvents(c0, t0, e1, e2);
    FirstCapture(Session(NewController(c0), t0), b1);
    SecondCapture(Next(Session(NewController(c0), t0), e1), b1, b2);
  }

  lemma TwoEvents(c0: nat, t0: nat, e1: Event, e2: Event)
    requires c0 <= t0 && e1.Tick? && e2.Tick? && Timely(t0, e1) && Timely(ClockAt(t0, e1), e2)
    ensures LegalEvents(t0, [e1, e2]) && ClockNow(t0, [e1, e2]) == ClockAt(t0, e2) && LastTickTime(t0, [e1, e2]) == e2.now
    ensures var s0 := Session(NewController(c0), t0); var s1 := Next(s0, e1);
            && InOrder(s1.ctl.samples) && After(c0, t0, [e1, e2]).s == Next(s1, e2)
            && (Sends(s0, e1) && Sends(s1, e2) ==> After(c0, t0, [e1, e2]).sent == [e1.now, e2.now])
  {
    assert [] + [e1] == [e1] && [e1] + [e2] == [e1, e2];
    EventAppended(t0, [], e1);
    EventAppended(t0, [e1], e2);
    AfterAppended(c0, t0, [], e1);
    assert After(c0, t0, []) == Traffic(Session(NewController(c0), t0), []);
    hide LegalEvents, Next, Sends, ClockNow, LastTickTime, SessionSane;
    AfterAppended(c0, t0, [e1], e2);
    assert [e1.now] + [e2.now] == [e1.now, e2.now] && [] + [e1.now] == [e1.now];
  }

  lemma FirstCapture(s: Session, bytes: nat)
    requires s.ctl == NewController(s.ctl.lastChange) && s.ctl.lastChange <= s.lastTick
    ensures var e := CaptureAt(s.lastTick + FIRST, bytes); var n := Next(s, e);
            && Sends(s, e) && n.lastTick == e.now && n.ctl.samples == [Sample(e.now, bytes, FIRST)]
            && n.ctl.forced.None? && !SlowMode(n.ctl.current) && n.ctl.lastChange <= e.now
  {
    var e := CaptureAt(s.lastTick + FIRST, bytes);
    UnmeasuredTick(s, e);
    hide Asked, Interval;
    assert [] + [Sample(e.now, bytes, FIRST)] == [Sample(e.now, bytes, FIRST)];
  }

  lemma SecondCapture(s: Session, b1: nat, b2: nat)
    requires s.ctl.forced.None? && !SlowMode(s.ctl.current) && s.ctl.lastChange <= s.lastTick
    requires s.ctl.samples == [Sample(s.lastTick, b1, FIRST)] && b1 + b2 < 5_000_000
    ensures var e := CaptureAt(s.lastTick + (SECOND - FIRST), b2);
            Sends(s, e) && InOrder(Next(s, e).ctl.samples) && Slowed(Next(s, e))
  {
    var one, two := Sample(s.lastTick, b1, FIRST), Sample(s.lastTick + (SECOND - FIRST), b2, SECOND - FIRST);
    OneSlowSample(s.lastTick, b1);
    TwoSlowSamples(s.lastTick, b1, b2);
    assert [one] + [two] == [one, two] && Interval(Low) == SLOW;
    hide Asked, Interval;
  }

  /** One sample with a round trip of 200 ms or more asks for Low. */
  lemma OneSlowSample(t: nat, bytes: nat)
    ensures Asked([Sample(t, bytes, FIRST)]) == Low
  {
    TotalsAppended([], Sample(t, bytes, FIRST), 0.0);
    assert [] + [Sample(t, bytes, FIRST)] == [Sample(t, bytes, FIRST)];
    hide TotalMillis, TotalBytes;
  }

  /** Two of them, two seconds apart, ask for Low or Minimal below 20 Mbps. */
  lemma TwoSlowSamples(t: nat, b1: nat, b2: nat)
    requires b1 + b2 < 5_000_000
    ensures SlowMode(Asked([Sample(t, b1, FIRST), Sample(t + (SECOND - FIRST), b2, SECOND - FIRST)]))
  {
    var one, two := Sample(t, b1, FIRST), Sample(t + (SECOND - FIRST), b2, SECOND - FIRST);
    TotalsAppended([], one, 0.0);
    TotalsAppended([one], two, 0.0);
    assert [] + [one] == [one] && [one] + [two] == [one, two];
    hide TotalMillis, TotalBytes;
    assert AverageRtt([one, two]) == Some(1125);
    assert Seconds(two.timestamp - one.timestamp) == 2.0;
    assert Bandwidth([one, two]) == Some((b1 + b2) as real * 8.0 / 2_000_000.0);
  }

  // ---------- A new session ----------

  /** A session nothing is known about. */
  predicate Unmeasured(s: Session) {
    s.ctl.samples == [] && s.ctl.forced.None? && s.ctl.current in {High, Medium}
  }

  lemma UnmeasuredTick(s: Session, e: Event)
    requires Unmeasured(s) && e.Tick?
    ensures Sends(s, e) <==> e.deliverable && e.now - s.lastTick >= FRAME_INTERVAL
    ensures Next(s, e).ctl.current in {High, Medium} && Next(s, e).ctl.forced.None?
    ensures !Sends(s, e) ==> Unmeasured(Next(s, e))
  {
    assert Asked([]) == Medium && Interval(High) == Interval(Medium) == FRAME_INTERVAL;
    hide Asked, Interval;
  }

  /** While only captured frames reach a new session, its first frame goes out at
      least 33 ms after its creation. */
  lemma {:induction false} FirstSendWaits(c0: nat, t0: nat, run: seq<Event>)
    requires c0 <= t0 && LegalEvents(t0, run) && forall e | e in run :: e.Tick?
    ensures var h := After(c0, t0, run);
            if h.sent == [] then Unmeasured(h.s) && h.s.lastTick >= t0 else h.sent[0] >= t0 + FRAME_INTERVAL
  {
    if run != [] {
      var init, e := run[..|run| - 1], run[|run| - 1];
      assert e in run && forall x | x in init :: x in run;
      FirstSendWaits(c0, t0, init);
      LastTickIs(c0, t0, run);
      ClockStarts(t0, init);
      var s := After(c0, t0, init).s;
      if Unmeasured(s) {
        UnmeasuredTick(s, e);
      }
      hide Next, Sends, Unmeasured;
    }
  }

  lemma {:induction false} ClockStarts(t0: nat, run: seq<Event>)
    requires LegalEvents(t0, run)
    ensures ClockNow(t0, run) >= t0
  {
    if run != [] {
      ClockStarts(t0, run[..|run| - 1]);
    }
  }

  // ---------- At the other modes a silence ends ----------

  /** Captures 33 ms apart that arrive less than 33 ms apart: each arrives with less
      delay than the one before, so the delay of the first bounds their number. */
  lemma {:induction false} DelayShrinks(taken: seq<nat>, arrived: seq<nat>)
    requires |taken| == |arrived| > 0 && Spaced(taken, FRAME_INTERVAL)
    requires forall i | 0 <= i < |taken| :: taken[i] <= arrived[i]
    requires forall i | 0 < i < |taken| :: arrived[i] - arrived[i - 1] < FRAME_INTERVAL
    ensures var n := |taken| - 1; arrived[n] - taken[n] + n <= arrived[0] - taken[0]
  {
    var n := |taken| - 1;
    if n > 0 {
      DelayShrinks(taken[..n], arrived[..n]);
    }
  }

  /** Frame i can be sent, the mode is Ultra, High or Medium, and yet it is skipped. */
  predicate SkippedFast(c0: nat, t0: nat, run: seq<Event>, i: nat)
    requires c0 <= t0 && i < |run| && LegalEvents(t0, run)
  {
    LegalPrefix(t0, run, i);
    var s, e := After(c0, t0, run[..i]).s, run[i];
    e.Tick? && e.deliverable && !SlowMode(ModeOf(s, e)) && !Sends(s, e)
  }

  lemma SkippedIsTick(c0: nat, t0: nat, run: seq<Event>, i: nat)
    requires c0 <= t0 && i < |run| && LegalEvents(t0, run) && SkippedFast(c0, t0, run, i)
    ensures run[i].Tick?
  {
    hide After, ModeOf, Sends;
  }

  lemma SkipMeansClose(c0: nat, t0: nat, run: seq<Event>, i: nat)
    requires c0 <= t0 && 0 < i < |run| && LegalEvents(t0, run)
    requires run[i - 1].Tick? && SkippedFast(c0, t0, run, i)
    ensures run[i].now - run[i - 1].now < FRAME_INTERVAL
  {
    LegalPrefix(t0, run, i);
    var s := After(c0, t0, run[..i]).s;
    LastTickIs(c0, t0, run[..i]);
    SlowInterval(ModeOf(s, run[i]));
    assert run[..i][i - 1] == run[i - 1];
    hide Interval, ModeOf, After;
  }

  /** At Ultra, High and Medium a silence is only a backlog being worked off. Take
      frames k, k + 1, ... captured at the times of `taken`, none arriving before it
      was captured: if all but the first are skipped, they are no more than the
      nanoseconds the first one was late. */
  lemma FastSilenceEnds(c0: nat, t0: nat, run: seq<Event>, k: nat, taken: seq<nat>)
    requires c0 <= t0 && LegalEvents(t0, run) && k < |run| && |taken| == |run| - k && Spaced(taken, FRAME_INTERVAL)
    requires run[k].Tick? && forall i | k < i < |run| :: SkippedFast(c0, t0, run, i)
    requires forall i | 0 <= i < |taken| :: taken[i] <= Arrivals(run, k)[i]
    ensures |taken| - 1 <= Arrivals(run, k)[0] - taken[0]
  {
    hide SkippedFast, LegalEvents, After;
    var arrived := Arrivals(run, k);
    forall i | 0 < i < |taken|
      ensures arrived[i] - arrived[i - 1] < FRAME_INTERVAL
    {
      SkippedIsTick(c0, t0, run, k + i);
      if i > 1 {
        SkippedIsTick(c0, t0, run, k + i - 1);
      }
      SkipMeansClose(c0, t0, run, k + i);
    }
    hide *;
    DelayShrinks(taken, arrived);
  }

  // ---------- The session object ----------

  class ClientSession {
    const controller: AdaptiveQualityController
    var lastFrameTime: nat

    function View(): Session reads this, controller, controller.monitor {
      Session(controller.View(), lastFrameTime)
    }

    ghost predicate Valid(clock: nat) reads this, controller, controller.monitor {
      controller.Valid(clock) && lastFrameTime <= clock
    }

    /** The controller reads the clock first, then the session does. */
    constructor (created: nat, now: nat)
      requires created <= now
      ensures Valid(now) && View() == Session(NewController(created), now)
      ensures fresh(controller) && fresh(controller.monitor)
    {
      controller := new AdaptiveQualityController(created);
      lastFrameTime := now;
    }

    /** One captured frame: true when it is queued. The readings are those of Tick. */
    method OfferFrame(e: Event, ghost clock: nat) returns (queued: bool)
      requires e.Tick? && Valid(clock) && Timely(clock, e)
      modifies this, controller, controller.monitor
      ensures Valid(ClockAt(clock, e))
      ensures queued == Sends(old(View()), e) && View() == Next(old(View()), e)
    {
      hide Asked, Interval, Step, Returned;
      var quality := controller.GetRecommendedQuality(e.elapsedAt, e.changedAt, clock);
      controller.ValidLater(e.changedAt, e.sampledAt);
      var frameTime := e.now - lastFrameTime;
      lastFrameTime := e.now;
      if frameTime < Interval(quality) {
        return false;
      }
      if !e.deliverable {
        return false;
      }
      controller.UpdateMetrics(e.sampledAt, e.bytes, frameTime, e.changedAt);
      queued := true;
    }
  }
}
