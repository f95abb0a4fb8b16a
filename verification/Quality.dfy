/** Adaptive quality of src/common/quality.rs. Floats are reals, clock readings and
    durations are nanoseconds; a call that reads the clock twice carries both readings. */
module Quality {
  import opened Basics
  import opened Spacing
  import opened Windows

  datatype Mode = Ultra | High | Medium | Low | Minimal

  function ResolutionScale(m: Mode): real {
    match m case Ultra => 1.0 case High => 1.0 case Medium => 0.75 case Low => 0.5 case Minimal => 0.25
  }

  function TargetFps(m: Mode): nat {
    match m case Ultra => 60 case High => 30 case Medium => 30 case Low => 15 case Minimal => 10
  }

  function CompressionLevel(m: Mode): int {
    match m case Ultra => 0 case High => 1 case Medium => 3 case Low => 6 case Minimal => 9
  }

  function BandwidthRequirement(m: Mode): real {
    match m case Ultra => 50.0 case High => 20.0 case Medium => 10.0 case Low => 5.0 case Minimal => 2.0
  }

  function AtMostOne(x: real): real { if x < 1.0 then x else 1.0 }

  function Score(bandwidth: real, rttMillis: nat, loss: real): real {
    AtMostOne(bandwidth / 50.0) * 0.5
    + (1.0 - AtMostOne(rttMillis as real / 200.0)) * 0.3
    + (1.0 - AtMostOne(loss / 10.0)) * 0.2
  }

  function ModeFor(score: real): Mode {
    if score >= 0.8 then Ultra
    else if score >= 0.6 then High
    else if score >= 0.4 then Medium
    else if score >= 0.2 then Low
    else Minimal
  }

  function Calculate(bandwidth: real, rttMillis: nat, loss: real): Mode {
    ModeFor(Score(bandwidth, rttMillis, loss))
  }

  /** What each mode stands for. */
  lemma ModesWrittenOut()
    ensures TargetFps(Ultra) == 60 && TargetFps(High) == 30 && TargetFps(Medium) == 30
    ensures TargetFps(Low) == 15 && TargetFps(Minimal) == 10
    ensures ResolutionScale(Ultra) == 1.0 && ResolutionScale(High) == 1.0 && ResolutionScale(Medium) == 0.75
    ensures ResolutionScale(Low) == 0.5 && ResolutionScale(Minimal) == 0.25
    ensures CompressionLevel(Ultra) == 0 && CompressionLevel(High) == 1 && CompressionLevel(Medium) == 3
    ensures CompressionLevel(Low) == 6 && CompressionLevel(Minimal) == 9
    ensures BandwidthRequirement(Ultra) == 50.0 && BandwidthRequirement(High) == 20.0 && BandwidthRequirement(Medium) == 10.0
    ensures BandwidthRequirement(Low) == 5.0 && BandwidthRequirement(Minimal) == 2.0
  {
  }

  /** Points out of 100 that a network earns: one for each megabit up to 50, up to 30
      for a round trip below 200 ms, up to 20 for a loss below 10. */
  function Points(bandwidth: real, rttMillis: nat, loss: real): real {
    (if bandwidth < 50.0 then bandwidth else 50.0)
    + (if rttMillis < 200 then 30.0 - 0.15 * rttMillis as real else 0.0)
    + (if loss < 10.0 then 20.0 - 2.0 * loss else 0.0)
  }

  /** The mode in terms of the three metrics: bands of twenty points from 80 down. */
  lemma ModeWrittenOut(bandwidth: real, rttMillis: nat, loss: real)
    ensures var points := Points(bandwidth, rttMillis, loss);
            Calculate(bandwidth, rttMillis, loss) ==
            if points >= 80.0 then Ultra
            else if points >= 60.0 then High
            else if points >= 40.0 then Medium
            else if points >= 20.0 then Low
            else Minimal
  {
    assert 100.0 * Score(bandwidth, rttMillis, loss) == Points(bandwidth, rttMillis, loss);
  }

  /** A network no worse in bandwidth, round-trip time and loss never gets a lower
      frame rate, resolution or bandwidth budget, nor stronger compression. */
  lemma BetterNetworkBetterMode(b: real, r: nat, l: real, b2: real, r2: nat, l2: real)
    requires 0.0 <= b <= b2 && r2 <= r && 0.0 <= l2 <= l
    ensures var m, n := Calculate(b, r, l), Calculate(b2, r2, l2);
            && TargetFps(m) <= TargetFps(n) && ResolutionScale(m) <= ResolutionScale(n)
            && BandwidthRequirement(m) <= BandwidthRequirement(n) && CompressionLevel(m) >= CompressionLevel(n)
  {
    assert Score(b, r, l) <= Score(b2, r2, l2);
  }

  /** Ultra is only chosen on a fast, close network. */
  lemma UltraNeeds(b: real, r: nat, l: real)
    requires 0.0 <= b && 0.0 <= l && Calculate(b, r, l) == Ultra
    ensures b >= 30.0 && r <= 133
  {
    assert Score(b, r, l) >= 0.8;
  }

  // ---------- The controller ----------

  const COOLDOWN: nat := 2_000_000_000

  datatype Controller = Controller(current: Mode, lastChange: nat, forced: Option<Mode>, samples: seq<Sample>)

  datatype Call =
    | Force(mode: Option<Mode>)
    | Update(now: nat, bytesSent: nat, rtt: nat)
    | Recommend(elapsedAt: nat, changedAt: nat)

  function NewController(now: nat): Controller { Controller(High, now, None, []) }

  /** What the metrics ask for, with the code's defaults when a metric is missing. */
  function Asked(samples: seq<Sample>): Mode
    requires InOrder(samples)
  {
    var bandwidth := match Bandwidth(samples) case Some(b) => b case None => 10.0;
    var rtt := match AverageRtt(samples) case Some(r) => r case None => 50;
    Calculate(bandwidth, rtt, LossRate(samples))
  }

  /** The mode a window of samples asks for: its own metrics, or 10 Mbps and 50 ms
      where it has none, measured against 80, 60, 40 and 20 points. */
  lemma AskedWrittenOut(samples: seq<Sample>)
    requires InOrder(samples)
    ensures var b := if Bandwidth(samples).Some? then Bandwidth(samples).value else 10.0;
            var r := if AverageRtt(samples).Some? then AverageRtt(samples).value else 50;
            var points := Points(b, r, LossRate(samples));
            && (Asked(samples) == Ultra <==> points >= 80.0)
            && (Asked(samples) == High <==> 60.0 <= points < 80.0)
            && (Asked(samples) == Medium <==> 40.0 <= points < 60.0)
            && (Asked(samples) == Low <==> 20.0 <= points < 40.0)
            && (Asked(samples) == Minimal <==> points < 20.0)
  {
    var b := if Bandwidth(samples).Some? then Bandwidth(samples).value else 10.0;
    var r := if AverageRtt(samples).Some? then AverageRtt(samples).value else 50;
    hide Bandwidth, AverageRtt, LossRate, Calculate, Points;
    ModeWrittenOut(b, r, LossRate(samples));
  }

  lemma BandwidthNonNegative(samples: seq<Sample>)
    requires InOrder(samples) && Bandwidth(samples).Some?
    ensures Bandwidth(samples).value >= 0.0
  {
    var duration := Seconds(samples[|samples| - 1].timestamp - samples[0].timestamp);
    QuotientNonNegative(TotalBytes(samples) as real * 8.0, duration * 1_000_000.0);
  }

  /** The metrics ask for Ultra only with a measured bandwidth of at least 30 Mbps,
      never on the defaults used while nothing has been measured, and only while
      the window's average round trip is at most 133 ms. */
  lemma UltraIsMeasured(samples: seq<Sample>)
    requires InOrder(samples) && Asked(samples) == Ultra
    ensures Bandwidth(samples).Some? && Bandwidth(samples).value >= 30.0
    ensures AverageRtt(samples).Some? && AverageRtt(samples).value <= 133
  {
    LossInRange(samples);
    var b := match Bandwidth(samples) case Some(b) => b case None => 10.0;
    var r := match AverageRtt(samples) case Some(r) => r case None => 50;
    if Bandwidth(samples).Some? {
      BandwidthNonNegative(samples);
    }
    UltraNeeds(b, r, LossRate(samples));
  }

  /** An automatic change happens. */
  predicate Changes(c: Controller, call: Call)
    requires InOrder(c.samples)
  {
    && call.Recommend? && c.forced.None?
    && call.elapsedAt - c.lastChange >= COOLDOWN
    && Asked(c.samples) != c.current
  }

  function Step(c: Controller, call: Call): Controller
    requires InOrder(c.samples)
  {
    match call
    case Force(q) => c.(forced := q, current := if q.Some? then q.value else c.current)
    case Update(now, bytes, rtt) => c.(samples := Newest(c.samples + [Sample(now, bytes, rtt)], MAX_SAMPLES))
    case Recommend(_, changedAt) =>
      if Changes(c, call) then c.(current := Asked(c.samples), lastChange := changedAt) else c
  }

  /** What get_recommended_quality returns: the forced mode if there is one. */
  function Returned(c: Controller, call: Call): Mode
    requires InOrder(c.samples) && call.Recommend?
  {
    if c.forced.Some? then c.forced.value else Step(c, call).current
  }

  /** get_recommended_quality: a forced mode is returned and nothing changes; within two
      seconds of the last change the current mode stays; after that the mode asked
      for becomes current, and the time is noted if it is another one. */
  lemma RecommendWrittenOut(c: Controller, elapsedAt: nat, changedAt: nat)
    requires InOrder(c.samples)
    ensures var r, n := Returned(c, Recommend(elapsedAt, changedAt)), Step(c, Recommend(elapsedAt, changedAt));
            match c.forced
            case Some(m) => r == m && n == c
            case None =>
              if elapsedAt - c.lastChange < 2_000_000_000 then r == c.current && n == c
              else
                && r == Asked(c.samples) == n.current && n.forced.None? && n.samples == c.samples
                && n.lastChange == if Asked(c.samples) == c.current then c.lastChange else changedAt
  {
    hide Asked;
  }

  /** The other two calls. */
  lemma CallsWrittenOut(c: Controller, mode: Option<Mode>, now: nat, bytes: nat, rtt: nat)
    requires InOrder(c.samples) && |c.samples| <= 30
    ensures var n := Step(c, Force(mode));
            && n.forced == mode && n.samples == c.samples && n.lastChange == c.lastChange
            && n.current == if mode.Some? then mode.value else c.current
    ensures var n := Step(c, Update(now, bytes, rtt));
            && n.forced == c.forced && n.current == c.current && n.lastChange == c.lastChange
            && n.samples == (if |c.samples| < 30 then c.samples else c.samples[1..]) + [Sample(now, bytes, rtt)]
  {
    hide Asked;
    var more := c.samples + [Sample(now, bytes, rtt)];
    if |c.samples| == 30 {
      assert more[1..] == c.samples[1..] + [Sample(now, bytes, rtt)];
    }
  }

  /** The clock after a call that starts no earlier than `clock`. */
  function ClockAfter(clock: nat, call: Call): nat {
    match call case Force(_) => clock case Update(now, _, _) => now case Recommend(_, t) => t
  }

  predicate Readings(clock: nat, call: Call) {
    match call
    case Force(_) => true
    case Update(now, _, _) => clock <= now
    case Recommend(e, t) => clock <= e <= t
  }

  /** Consistency of a controller at time clock. */
  predicate Sane(c: Controller, clock: nat) {
    && c.lastChange <= clock && InOrder(c.samples) && |c.samples| <= MAX_SAMPLES
    && (c.samples != [] ==> c.samples[|c.samples| - 1].timestamp <= clock)
    && (c.forced.Some? ==> c.current == c.forced.value)
  }

  lemma StepKeepsSane(c: Controller, clock: nat, call: Call)
    requires Sane(c, clock) && Readings(clock, call)
    ensures Sane(Step(c, call), ClockAfter(clock, call))
  {
  }

  /** A history of calls: the controller, the clock, and the times of automatic changes. */
  datatype History = History(c: Controller, clock: nat, changes: seq<nat>)

  predicate LegalRun(t0: nat, calls: seq<Call>) {
    calls == [] || (LegalRun(t0, calls[..|calls| - 1]) && Readings(Clock(t0, calls[..|calls| - 1]), calls[|calls| - 1]))
  }

  function Clock(t0: nat, calls: seq<Call>): nat {
    if calls == [] then t0 else ClockAfter(Clock(t0, calls[..|calls| - 1]), calls[|calls| - 1])
  }

  function Run(t0: nat, calls: seq<Call>): (h: History)
    requires LegalRun(t0, calls)
    ensures h.clock == Clock(t0, calls) && Sane(h.c, h.clock)
  {
    if calls == [] then History(NewController(t0), t0, [])
    else
      var h, call := Run(t0, calls[..|calls| - 1]), calls[|calls| - 1];
      StepKeepsSane(h.c, h.clock, call);
      History(Step(h.c, call), ClockAfter(h.clock, call),
              if Changes(h.c, call) then h.changes + [call.changedAt] else h.changes)
  }

  /** The changes recorded are the calls that changed the current mode without being told to. */
  lemma ChangesWrittenOut(t0: nat, calls: seq<Call>, call: Call)
    requires LegalRun(t0, calls) && Readings(Clock(t0, calls), call)
    ensures LegalRun(t0, calls + [call])
    ensures var h, n := Run(t0, calls), Run(t0, calls + [call]);
            n.changes == if call.Recommend? && n.c.current != h.c.current then h.changes + [call.changedAt] else h.changes
  {
    assert (calls + [call])[..|calls|] == calls;
    StepKeepsSane(Run(t0, calls).c, Clock(t0, calls), call);
    ChangesIff(Run(t0, calls).c, call);
    hide Asked, Step, Changes, Sane, Readings;
  }

  lemma ChangesIff(c: Controller, call: Call)
    requires InOrder(c.samples)
    ensures Changes(c, call) <==> call.Recommend? && Step(c, call).current != c.current
  {
    hide Asked;
  }

  /** Over every run a forced mode is the current mode and is what is returned. */
  lemma ForcedModeRules(t0: nat, calls: seq<Call>, e: nat, t: nat)
    requires LegalRun(t0, calls) && Run(t0, calls).c.forced.Some? && Clock(t0, calls) <= e <= t
    ensures var c := Run(t0, calls).c;
            && c.current == c.forced.value && Returned(c, Recommend(e, t)) == c.forced.value
            && Step(c, Recommend(e, t)) == c
  {
  }

  /** Automatic changes are at least two seconds apart, none falls in the first
      two seconds, and the last of them is what last_quality_change records
      (the creation time while there is none). */
  lemma {:induction false} ChangesSpaced(t0: nat, calls: seq<Call>)
    requires LegalRun(t0, calls)
    ensures var h := Run(t0, calls);
            && Spaced(h.changes, COOLDOWN)
            && (forall i | 0 <= i < |h.changes| :: t0 + COOLDOWN <= h.changes[i] <= h.c.lastChange)
            && (h.changes == [] ==> h.c.lastChange == t0) && t0 <= h.c.lastChange
  {
    if calls != [] {
      ChangesSpaced(t0, calls[..|calls| - 1]);
      hide Asked;
    }
  }

  /** At most len / 2s + 1 automatic changes in any window of length len. */
  lemma ChangesInWindow(t0: nat, calls: seq<Call>, from: nat, len: nat)
    requires LegalRun(t0, calls)
    ensures InWindow(Run(t0, calls).changes, from, len) <= len / COOLDOWN + 1
  {
    ChangesSpaced(t0, calls);
    WindowBound(Run(t0, calls).changes, COOLDOWN, from, len);
  }

  class AdaptiveQualityController {
    var currentQuality: Mode
    const monitor: BandwidthMonitor
    var lastQualityChange: nat
    var forcedQuality: Option<Mode>

    function View(): Controller reads this, monitor {
      Controller(currentQuality, lastQualityChange, forcedQuality, monitor.samples)
    }

    /** Valid when no clock reading so far is later than clock. */
    ghost predicate Valid(clock: nat) reads this, monitor {
      && monitor.Valid() && Sane(View(), clock)
      && (monitor.history != [] ==> monitor.history[|monitor.history| - 1].timestamp <= clock)
    }

    lemma ValidLater(clock: nat, later: nat)
      requires Valid(clock) && clock <= later
      ensures Valid(later) && InOrder(View().samples)
    {
    }

    constructor (now: nat)
      ensures Valid(now) && View() == NewController(now) && fresh(monitor)
      ensures currentQuality == High && lastQualityChange == now && forcedQuality == None && monitor.samples == []
    {
      currentQuality, lastQualityChange, forcedQuality := High, now, None;
      monitor := new BandwidthMonitor();
      new;
      assert monitor.samples == [];
    }

    method ForceQuality(quality: Option<Mode>, ghost clock: nat)
      requires Valid(clock)
      modifies this
      ensures Valid(clock) && View() == Step(old(View()), Force(quality))
    {
      forcedQuality := quality;
      if quality.Some? {
        currentQuality := quality.value;
      }
    }

    method UpdateMetrics(now: nat, bytesSent: nat, rtt: nat, ghost clock: nat)
      requires Valid(clock) && clock <= now
      modifies monitor
      ensures Valid(now) && View() == Step(old(View()), Update(now, bytesSent, rtt))
    {
      monitor.AddSample(now, bytesSent, rtt);
    }

    method GetRecommendedQuality(elapsedAt: nat, changedAt: nat, ghost clock: nat) returns (q: Mode)
      requires Valid(clock) && clock <= elapsedAt <= changedAt
      modifies this
      ensures Valid(changedAt) && View() == Step(old(View()), Recommend(elapsedAt, changedAt))
      ensures q == Returned(old(View()), Recommend(elapsedAt, changedAt)) == currentQuality
    {
      if forcedQuality.Some? {
        return forcedQuality.value;
      }
      if elapsedAt - lastQualityChange < COOLDOWN {
        return currentQuality;
      }
      var asked := Asked(monitor.samples);
      if asked != currentQuality {
        currentQuality := asked;
        lastQualityChange := changedAt;
      }
      q := currentQuality;
    }
  }
}
