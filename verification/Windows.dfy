/** The two sliding windows: MovingAverage of src/common/metrics.rs, a ring with a
    running sum, and BandwidthMonitor of src/common/quality.rs, a bounded deque.
    Both are tied to the full history of samples. Floats are reals; times and
    durations are nanoseconds. */
module Windows {
  import opened Basics

  function Sum(s: seq<real>): real {
    if s == [] then 0.0 else Sum(s[..|s| - 1]) + s[|s| - 1]
  }

  lemma {:induction false} SumDropFirst(s: seq<real>)
    requires s != []
    ensures Sum(s) == s[0] + Sum(s[1..])
  {
    if |s| == 1 {
      assert s[..0] == [] && s[1..] == [];
    } else {
      SumDropFirst(s[..|s| - 1]);
      assert s[1..][..|s| - 2] == s[..|s| - 1][1..];
    }
  }

  lemma SumAppend(s: seq<real>, v: real)
    ensures Sum([]) == 0.0 && Sum(s + [v]) == Sum(s) + v
  {
    assert (s + [v])[..|s|] == s;
  }

  /** Sliding by one: the new window's sum is the old one's, minus what left, plus what came. */
  lemma SumSlides(h: seq<real>, cap: nat, v: real)
    requires cap > 0
    ensures Sum(Newest(h + [v], cap)) ==
            Sum(Newest(h, cap)) + v - (if |h| >= cap then h[|h| - cap] else 0.0)
  {
    var w := Newest(h, cap);
    if |h| >= cap {
      NewestSlides(h, cap, v);
      SumDropFirst(w);
      SumAppend(w[1..], v);
    } else {
      assert Newest(h + [v], cap) == h + [v];
      SumAppend(h, v);
    }
  }

  /** Until the ring is full it holds the history in order; from then on the slots
      from index to the end, then those before index, are the window, oldest first. */
  predicate Ring(slots: seq<real>, index: nat, history: seq<real>) {
    && index < |slots|
    && if |history| < |slots| then index == |history| && slots[..index] == history
       else slots[index..] + slots[..index] == Newest(history, |slots|)
  }

  /** The slot after i, cyclically. */
  function NextIndex(i: nat, cap: nat): (next: nat)
    requires i < cap
    ensures next == if i + 1 == cap then 0 else i + 1
  {
    (i + 1) % cap
  }

  /** Overwriting the slot at index drops the oldest sample and adds the newest. */
  lemma RingAdvances(slots: seq<real>, index: nat, history: seq<real>, value: real)
    requires Ring(slots, index, history)
    ensures |history| >= |slots| ==> slots[index] == history[|history| - |slots|]
    ensures Ring(slots[index := value], NextIndex(index, |slots|), history + [value])
  {
    if |history| < |slots| {
      RingFills(slots, index, history, value);
    } else {
      RingTurns(slots, index, history, value);
    }
  }

  lemma RingFills(slots: seq<real>, index: nat, history: seq<real>, value: real)
    requires Ring(slots, index, history) && |history| < |slots|
    ensures Ring(slots[index := value], NextIndex(index, |slots|), history + [value])
  {
    hide NextIndex;
    var next := slots[index := value];
    assert next[..index + 1] == history + [value];
    if index + 1 == |slots| {
      assert next[0..] + next[..0] == next == next[..index + 1];
    }
  }

  lemma NewestSlides(h: seq<real>, cap: nat, v: real)
    requires 0 < cap <= |h|
    ensures Newest(h, cap) != [] && Newest(h, cap)[0] == h[|h| - cap]
    ensures Newest(h + [v], cap) == Newest(h, cap)[1..] + [v]
  {
  }

  lemma RingTurns(slots: seq<real>, index: nat, history: seq<real>, value: real)
    requires Ring(slots, index, history) && |history| >= |slots|
    ensures slots[index] == history[|history| - |slots|]
    ensures Ring(slots[index := value], NextIndex(index, |slots|), history + [value])
  {
    hide NextIndex;
    var next, window := slots[index := value], Newest(history, |slots|);
    NewestSlides(history, |slots|, value);
    hide Newest;
    assert slots[index] == window[0];
    assert window[1..] == slots[index + 1..] + slots[..index];
    assert next[index + 1..] == slots[index + 1..] && next[..index + 1] == slots[..index] + [value];
    assert next[index + 1..] + next[..index + 1] == window[1..] + [value];
    if index + 1 == |slots| {
      assert next[0..] + next[..0] == next == next[index + 1..] + next[..index + 1];
    }
  }

  /** What one sample does to the ring, the running sum and the count. */
  lemma WindowAdvances(slots: seq<real>, index: nat, history: seq<real>, sum: real, value: real)
    requires slots != [] && Ring(slots, index, history) && sum == Sum(Newest(history, |slots|))
    ensures index < |slots| && (Min(|history|, |slots|) == |slots| <==> |history| >= |slots|)
    ensures Ring(slots[index := value], NextIndex(index, |slots|), history + [value])
    ensures (if |history| >= |slots| then sum - slots[index] else sum) + value == Sum(Newest(history + [value], |slots|))
    ensures Min(|history + [value]|, |slots|) == if |history| >= |slots| then |slots| else Min(|history|, |slots|) + 1
    ensures |history| < |slots| ==> Min(|history|, |slots|) < |slots|
  {
    SumSlides(history, |slots|, value);
    RingAdvances(slots, index, history, value);
    hide Sum, Newest, NextIndex;
  }

  class MovingAverage {
    const samples: array<real>
    var index: nat
    var count: nat
    var sum: real
    ghost var history: seq<real>

    ghost predicate Valid() reads this, samples {
      && (if samples.Length > 0 then Ring(samples[..], index, history) else history == [])
      && count == Min(|history|, samples.Length)
      && sum == Sum(Newest(history, samples.Length))
    }

    constructor (capacity: nat)
      ensures Valid() && history == [] && samples.Length == capacity && fresh(samples)
    {
      samples := new real[capacity](_ => 0.0);
      index, count, sum := 0, 0, 0.0;
      history := [];
    }

    method AddSample(value: real)
      requires Valid() && samples.Length > 0
      modifies this, samples
      ensures Valid() && history == old(history) + [value]
    {
      hide Ring, Sum, Newest, NextIndex, Min;
      WindowAdvances(samples[..], index, history, sum, value);
      if count == samples.Length {
        sum := sum - samples[index];
      }
      ghost var was := samples[..];
      samples[index] := value;
      assert samples[..] == was[index := value];
      sum := sum + value;
      index := NextIndex(index, samples.Length);
      if count < samples.Length {
        count := count + 1;
      }
      history := history + [value];
    }

    method Average() returns (a: real)
      requires Valid()
      ensures a == if history == [] then 0.0
                   else Sum(Newest(history, samples.Length)) / Min(|history|, samples.Length) as real
    {
      if count == 0 {
        a := 0.0;
      } else {
        a := sum / count as real;
      }
    }
  }

  // ---------- Bandwidth samples ----------

  datatype Sample = Sample(timestamp: nat, bytesSent: nat, rtt: nat)

  const MAX_SAMPLES := 30
  const NANOS_PER_MILLI := 1_000_000

  function Millis(nanos: nat): nat { nanos / NANOS_PER_MILLI }

  function Seconds(nanos: nat): real { nanos as real / 1_000_000_000.0 }

  function TotalMillis(s: seq<Sample>): nat {
    if s == [] then 0 else TotalMillis(s[..|s| - 1]) + Millis(s[|s| - 1].rtt)
  }

  function TotalBytes(s: seq<Sample>): nat {
    if s == [] then 0 else TotalBytes(s[..|s| - 1]) + s[|s| - 1].bytesSent
  }

  predicate InOrder(s: seq<Sample>) { forall i, j | 0 <= i < j < |s| :: s[i].timestamp <= s[j].timestamp }

  /** get_average_rtt, in whole milliseconds. */
  function AverageRtt(s: seq<Sample>): Option<nat> {
    if s == [] then None else Some(TotalMillis(s) / |s|)
  }

  /** get_bandwidth_mbps. */
  function Bandwidth(s: seq<Sample>): Option<real>
    requires InOrder(s)
  {
    if |s| < 2 then None else Rate(TotalBytes(s), s[|s| - 1].timestamp - s[0].timestamp)
  }

  /** Megabits per second, unless the span is below a tenth of a second. */
  function Rate(bytes: nat, span: nat): Option<real> {
    var duration := Seconds(span);
    if duration < 0.1 then None else Some(bytes as real * 8.0 / (duration * 1_000_000.0))
  }

  function SquaredError(s: seq<Sample>, avg: real): (e: real)
    ensures e >= 0.0
  {
    if s == [] then 0.0
    else
      var diff := Seconds(s[|s| - 1].rtt) - avg;
      SquaredError(s[..|s| - 1], avg) + diff * diff
  }

  /** get_packet_loss_rate: variance of the round-trip times, scaled and capped. */
  function LossRate(s: seq<Sample>): real {
    if |s| < 5 then 0.0 else Loss(SquaredError(s, AverageRtt(s).value as real / 1000.0), |s|)
  }

  function Loss(e: real, n: nat): real
    requires n > 0
  {
    var loss := e / n as real * 100.0;
    if loss < 20.0 then loss else 20.0
  }

  // ---------- The three metrics, written out ----------

  lemma TotalsAppended(s: seq<Sample>, x: Sample, avg: real)
    ensures TotalMillis([]) == 0 && TotalMillis(s + [x]) == TotalMillis(s) + x.rtt / 1_000_000
    ensures TotalBytes([]) == 0 && TotalBytes(s + [x]) == TotalBytes(s) + x.bytesSent
    ensures SquaredError([], avg) == 0.0
    ensures var diff := x.rtt as real / 1_000_000_000.0 - avg; SquaredError(s + [x], avg) == SquaredError(s, avg) + diff * diff
  {
    assert (s + [x])[..|s|] == s;
  }

  /** The average round trip is the mean of the whole milliseconds, rounded down. */
  lemma AverageWrittenOut(s: seq<Sample>)
    ensures AverageRtt(s).None? <==> s == []
    ensures s != [] ==> var avg := AverageRtt(s).value; avg * |s| <= TotalMillis(s) < avg * |s| + |s|
  {
  }

  /** Bandwidth needs two samples a tenth of a second apart, and is then all bits of
      the window over its span, in megabits per second. */
  lemma BandwidthWrittenOut(s: seq<Sample>)
    requires InOrder(s)
    ensures Bandwidth(s).None? <==> |s| < 2 || s[|s| - 1].timestamp - s[0].timestamp < 100_000_000
    ensures Bandwidth(s).Some? ==>
              Bandwidth(s).value * (s[|s| - 1].timestamp - s[0].timestamp) as real == TotalBytes(s) as real * 8.0 * 1000.0
  {
    hide Rate, TotalBytes;
    if |s| >= 2 {
      RateWrittenOut(TotalBytes(s), s[|s| - 1].timestamp - s[0].timestamp);
    }
  }

  lemma RateWrittenOut(bytes: nat, span: nat)
    ensures Rate(bytes, span).None? <==> span < 100_000_000
    ensures Rate(bytes, span).Some? ==> Rate(bytes, span).value * span as real == bytes as real * 8.0 * 1000.0
  {
    if span >= 100_000_000 {
      PerMegabit(bytes as real * 8.0, span as real);
    }
  }

  lemma PerMegabit(bits: real, span: real)
    requires span > 0.0
    ensures bits / (span / 1_000_000_000.0 * 1_000_000.0) * span == bits * 1000.0
  {
    var d := span / 1000.0;
    assert span / 1_000_000_000.0 * 1_000_000.0 == d && d > 0.0;
    QuotientTimes(bits, d);
    var q := bits / d;
    assert q * d == bits && span == d * 1000.0;
    assert q * (d * 1000.0) == q * d * 1000.0;
  }

  lemma QuotientTimes(a: real, b: real)
    requires b > 0.0
    ensures a / b * b == a
  {
  }

  /** l is a hundred times the mean of n squares that add up to e, at most 20. */
  predicate HundredMeans(l: real, e: real, n: nat) {
    if 100.0 * e < 20.0 * n as real then l * n as real == 100.0 * e else l == 20.0
  }

  /** Loss is a hundred times the variance of the round trips around the average, at
      most 20, and 0 below five samples. */
  lemma LossWrittenOut(s: seq<Sample>)
    ensures |s| < 5 ==> LossRate(s) == 0.0
    ensures |s| >= 5 ==> HundredMeans(LossRate(s), SquaredError(s, AverageRtt(s).value as real / 1000.0), |s|)
  {
    hide SquaredError, Loss, HundredMeans;
    if |s| >= 5 {
      LossOf(SquaredError(s, AverageRtt(s).value as real / 1000.0), |s|);
    }
  }

  lemma LossOf(e: real, n: nat)
    requires n > 0
    ensures HundredMeans(Loss(e, n), e, n)
  {
    QuotientTimes(e, n as real);
    Hundredfold(e / n as real, n as real, e);
  }

  lemma Hundredfold(q: real, n: real, e: real)
    requires n > 0.0 && q * n == e
    ensures q * 100.0 * n == 100.0 * e && (100.0 * e < 20.0 * n <==> q * 100.0 < 20.0)
  {
    assert q * 100.0 * n == q * n * 100.0;
    if q >= 0.2 {
      TimesPositive(q - 0.2, n);
      assert (q - 0.2) * n == q * n - 0.2 * n;
    } else {
      StrictlyPositive(0.2 - q, n);
      assert (0.2 - q) * n == 0.2 * n - q * n;
    }
  }

  lemma TimesPositive(a: real, n: real)
    requires a >= 0.0 && n > 0.0
    ensures a * n >= 0.0
  {
  }

  lemma StrictlyPositive(a: real, n: real)
    requires a > 0.0 && n > 0.0
    ensures a * n > 0.0
  {
  }

  lemma LossInRange(s: seq<Sample>)
    ensures 0.0 <= LossRate(s) <= 20.0
  {
    if |s| >= 5 {
      var e := SquaredError(s, AverageRtt(s).value as real / 1000.0);
      QuotientNonNegative(e, |s| as real);
    }
  }

  lemma QuotientNonNegative(a: real, b: real)
    requires a >= 0.0 && b > 0.0
    ensures a / b >= 0.0
  {
  }

  lemma {:induction false} TotalBetween(s: seq<Sample>, lo: nat, hi: nat)
    requires forall x | x in s :: lo <= Millis(x.rtt) <= hi
    ensures lo * |s| <= TotalMillis(s) <= hi * |s|
  {
    if s != [] {
      assert s[|s| - 1] in s && forall x | x in s[..|s| - 1] :: x in s;
      TotalBetween(s[..|s| - 1], lo, hi);
      assert lo * |s| == lo * (|s| - 1) + lo && hi * |s| == hi * (|s| - 1) + hi;
    }
  }

  /** The average lies between any bounds on the window, so between its least and greatest. */
  lemma AverageBetween(s: seq<Sample>, lo: nat, hi: nat)
    requires s != [] && forall x | x in s :: lo <= Millis(x.rtt) <= hi
    ensures lo <= AverageRtt(s).value <= hi
  {
    TotalBetween(s, lo, hi);
    QuotientBetween(TotalMillis(s), |s|, lo, hi);
  }

  lemma QuotientBetween(t: nat, n: nat, lo: nat, hi: nat)
    requires n > 0 && lo * n <= t <= hi * n
    ensures lo <= t / n <= hi
  {
    var q, r := t / n, t % n;
    assert t == q * n + r && r < n;
    if q < lo {
      TimesMonotone(q + 1, lo, n);
    } else if q > hi {
      TimesMonotone(hi + 1, q, n);
    }
  }

  class BandwidthMonitor {
    var samples: seq<Sample>
    ghost var history: seq<Sample>

    ghost predicate Valid() reads this {
      InOrder(history) && samples == Newest(history, MAX_SAMPLES)
    }

    constructor ()
      ensures Valid() && history == []
    {
      samples, history := [], [];
    }

    /** now is the clock reading, which never goes back. */
    method AddSample(now: nat, bytesSent: nat, rtt: nat)
      requires Valid() && (history != [] ==> history[|history| - 1].timestamp <= now)
      modifies this
      ensures Valid() && history == old(history) + [Sample(now, bytesSent, rtt)]
      ensures samples == Newest(old(samples) + [Sample(now, bytesSent, rtt)], MAX_SAMPLES)
    {
      var sample := Sample(now, bytesSent, rtt);
      samples := samples + [sample];
      if |samples| > MAX_SAMPLES {
        samples := samples[1..];
      }
      history := history + [sample];
    }
  }
}
