/** The playback buffer of libs/rustdesk/src/client.rs: a ring that keeps the
    newest samples, and a 30-bucket histogram of fill levels that decides, every
    twelve seconds, how much backlog to drop. */
module Audio {
  import opened Basics

  type Sample = real

  const AUDIO_BUFFER_MS := 3000
  const BUCKETS := 30
  const SHRINK_PERIOD := 12000

  // ---------- Histogram ----------

  /** Bucket of a level: tenths of a second of backlog, capped at 29. */
  function Bucket(level: nat, rate: nat): (b: nat)
    requires rate > 0
    ensures b < BUCKETS
  {
    Min(level * 10 / rate, 29)
  }

  function Zeros(n: nat): (z: seq<nat>)
    ensures |z| == n && forall i | 0 <= i < n :: z[i] == 0
  {
    if n == 0 then [] else Zeros(n - 1) + [0]
  }

  /** Histogram of the levels recorded since the last reset. */
  function Histogram(levels: seq<nat>, rate: nat): (h: seq<nat>)
    requires rate > 0
    ensures |h| == BUCKETS
  {
    if levels == [] then Zeros(BUCKETS)
    else
      var h := Histogram(levels[..|levels| - 1], rate);
      var b := Bucket(levels[|levels| - 1], rate);
      h[b := h[b] + 1]
  }

  /** The scan of try_shrink after i buckets: the count of leading empty buckets,
      the candidate maximum, and the histogram with the losers cleared. Bucket 0
      is cleared at once, since it is never greater than itself. */
  function Scan(h: seq<nat>, i: nat): (r: (nat, nat, seq<nat>))
    requires |h| == BUCKETS && i <= BUCKETS
    ensures |r.2| == BUCKETS && r.0 <= i && (r.1 < i || r.1 == 0)
  {
    if i == 0 then (0, 0, h)
    else
      var (zero, max, g) := Scan(h, i - 1);
      var z := if g[i - 1] == 0 && zero == i - 1 then zero + 1 else zero;
      if g[i - 1] > g[max] then (z, i - 1, g[max := 0]) else (z, max, g[i - 1 := 0])
  }

  /** Numerator of the fraction of the buffer to drop, out of 120. */
  function DropLevel(h: seq<nat>): nat
    requires |h| == BUCKETS
  {
    var (zero, max, _) := Scan(h, BUCKETS);
    var mark := zero * 2 / 3;
    if max < 6 then 0 else Min(max, mark * 4)
  }

  predicate IsEven(n: int) { n % 2 == 0 }

  /** level of 120 parts of the capacity, rounded down. */
  function Share(cap: nat, level: nat): nat { cap * level / (30 * 4) }

  /** Samples dropped from a buffer of `having` samples and capacity cap. */
  function Skip(h: seq<nat>, cap: nat, having: nat): nat
    requires |h| == BUCKETS
  {
    var skip := Even(Share(cap, DropLevel(h)) + 1);
    if having > skip * 3 && skip > 0 then skip else 0
  }

  /** The scan leaves only the candidate uncleared and looks at each bucket's original count. */
  lemma {:induction false} ScanState(h: seq<nat>, i: nat)
    requires |h| == BUCKETS && i <= BUCKETS
    ensures var (zero, max, g) := Scan(h, i);
            && (forall b | i <= b < BUCKETS :: g[b] == h[b])
            && (forall b | 0 <= b < i && b != max :: g[b] == 0)
            && (forall b | 0 <= b < zero :: h[b] == 0)
            && (zero < i ==> h[zero] != 0)
  {
    if i > 0 {
      ScanState(h, i - 1);
    }
  }

  /** The candidate after i buckets: the first of the fullest buckets above bucket
      0, which is cleared before it can compete; 0 if those are all empty. */
  lemma {:induction false} ScanCandidate(h: seq<nat>, i: nat)
    requires |h| == BUCKETS && 0 < i <= BUCKETS
    ensures var (_, max, g) := Scan(h, i);
            if max == 0 then g[0] == 0 && forall b | 1 <= b < i :: h[b] == 0
            else g[max] == h[max] > 0 && (forall b | 1 <= b < i :: h[b] <= h[max])
                 && (forall b | 1 <= b < max :: h[b] < h[max])
  {
    if i > 1 {
      ScanCandidate(h, i - 1);
      ScanState(h, i - 1);
    }
  }

  /** try_shrink always ends with every counter at zero. */
  lemma ScanClears(h: seq<nat>)
    requires |h| == BUCKETS
    ensures var (_, max, g) := Scan(h, BUCKETS); g[max := 0] == Zeros(BUCKETS)
  {
    ScanState(h, BUCKETS);
  }

  lemma {:induction false} HistogramCounts(levels: seq<nat>, rate: nat, i: nat)
    requires rate > 0 && i < |levels|
    ensures Histogram(levels, rate)[Bucket(levels[i], rate)] > 0
  {
    if i < |levels| - 1 {
      HistogramCounts(levels[..|levels| - 1], rate, i);
    }
  }

  /** The first non-empty bucket is at or below the bucket of every recorded level. */
  lemma ZeroBelow(levels: seq<nat>, rate: nat, i: nat)
    requires rate > 0 && i < |levels|
    ensures Scan(Histogram(levels, rate), BUCKETS).0 <= Bucket(levels[i], rate)
  {
    HistogramCounts(levels, rate, i);
    ScanState(Histogram(levels, rate), BUCKETS);
  }

  lemma SkipArithmetic(rate: nat, zero: nat, drop: nat, level: nat)
    requires rate > 0 && zero * rate <= level * 10 && drop <= zero * 2 / 3 * 4
    ensures 3 * Share(3 * rate, drop) <= 2 * level && (drop == 0 ==> Share(3 * rate, drop) == 0)
  {
    TimesMonotone(3 * drop, 8 * zero, rate);
    assert 3 * drop * rate == 3 * (drop * rate) && 8 * zero * rate == 8 * (zero * rate);
    ThirdOfShare(drop * rate, zero * rate, level);
    assert 3 * rate * drop == 3 * (drop * rate);
  }

  lemma ThirdOfShare(product: nat, bound: nat, level: nat)
    requires 3 * product <= 8 * bound && bound <= level * 10
    ensures 3 * (3 * product / 120) <= 2 * level
  {
  }

  /** With one rate since the last reset: a shrink drops at most two thirds of any
      level recorded in the period, plus one sample; nothing if some level was in
      bucket 0; and it leaves more than two thirds of what was buffered. */
  lemma ShrinkIsGentle(levels: seq<nat>, rate: nat, having: nat, i: nat)
    requires rate > 0 && i < |levels|
    ensures var skip := Skip(Histogram(levels, rate), 3 * rate, having);
            && 3 * (skip - 1) <= 2 * levels[i]
            && (Bucket(levels[i], rate) == 0 ==> skip == 0)
            && (skip > 0 ==> 3 * (having - skip) > 2 * having)
            && IsEven(skip) && skip <= having
  {
    hide Scan, Histogram, Bucket;
    var h := Histogram(levels, rate);
    var zero := Scan(h, BUCKETS).0;
    ZeroBelow(levels, rate, i);
    var drop := DropLevel(h);
    BucketFloor(levels[i], rate, zero);
    SkipArithmetic(rate, zero, drop, levels[i]);
    SkipUnfolds(h, 3 * rate, having);
    assert Bucket(levels[i], rate) == 0 ==> drop == 0;
    hide Skip, DropLevel, Share;
    RoundDown(Share(3 * rate, drop));
  }

  /** (q + 1) & !1. */
  lemma RoundDown(q: nat)
    ensures IsEven(Even(q + 1)) && q <= Even(q + 1) <= q + 1 && (q == 0 ==> Even(q + 1) == 0)
  {
  }

  lemma SkipUnfolds(h: seq<nat>, cap: nat, having: nat)
    requires |h| == BUCKETS
    ensures var skip := Even(Share(cap, DropLevel(h)) + 1);
            Skip(h, cap, having) == if having > skip * 3 && skip > 0 then skip else 0
  {
    hide DropLevel, Share;
  }

  lemma BucketFloor(level: nat, rate: nat, zero: nat)
    requires rate > 0 && zero <= Bucket(level, rate)
    ensures zero * rate <= level * 10
  {
    var q := level * 10 / rate;
    assert q * rate <= level * 10;
    TimesMonotone(zero, q, rate);
  }

  // ---------- The buffer and its operations ----------

  /** Samples buffered, samples per second over all channels, histogram, and the
      time of the last shrink decision (0 before the first). */
  datatype Buffer = Buffer(ring: seq<Sample>, rate: nat, hist: seq<nat>, tms: int)

  function Capacity(rate: nat): nat { rate * AUDIO_BUFFER_MS / 1000 }

  function Default(): Buffer { Buffer([], 96000, Zeros(BUCKETS), 0) }

  datatype Op =
    | Append(pcm: seq<Sample>)
    | Shrink(level: nat, now: int)
    | Resize(rate: nat)
    | Pop(n: nat)

  function Bump(h: seq<nat>, b: nat): (g: seq<nat>)
    requires |h| == BUCKETS && b < BUCKETS
    ensures |g| == BUCKETS
  {
    h[b := h[b] + 1]
  }

  /** The twelve seconds since the last decision are over. */
  predicate Due(tms: int, now: int) { tms != 0 && now >= tms + SHRINK_PERIOD }

  predicate Shaped(b: Buffer) { |b.hist| == BUCKETS && b.rate > 0 && |b.ring| <= Capacity(b.rate) }

  /** try_shrink. */
  function Shrunk(b: Buffer, level: nat, now: int): (r: Buffer)
    requires Shaped(b)
    ensures Shaped(r)
  {
    var h := Bump(b.hist, Bucket(level, b.rate));
    if b.tms == 0 then b.(hist := h, tms := now)
    else if !Due(b.tms, now) then b.(hist := h)
    else b.(hist := Zeros(BUCKETS), tms := now, ring := Newest(b.ring, |b.ring| - Dropped(h, b)))
  }

  function Apply(b: Buffer, op: Op): (r: Buffer)
    requires Shaped(b) && (op.Resize? ==> op.rate > 0)
    ensures Shaped(r)
  {
    match op
    case Append(pcm) => b.(ring := Newest(b.ring + pcm, Capacity(b.rate)))
    case Shrink(level, now) => Shrunk(b, level, now)
    case Resize(rate) =>
      if Capacity(rate) == Capacity(b.rate) then b else b.(ring := [], rate := rate)
    case Pop(n) => b.(ring := Newest(b.ring, |b.ring| - Min(n, |b.ring|)))
  }

  function Dropped(h: seq<nat>, b: Buffer): (n: nat)
    requires |h| == BUCKETS
    ensures n <= |b.ring|
  {
    Skip(h, Capacity(b.rate), |b.ring|)
  }

  predicate Legal(run: seq<Op>) { forall op | op in run :: op.Resize? ==> op.rate > 0 }

  function After(run: seq<Op>): (b: Buffer)
    requires Legal(run)
    ensures Shaped(b)
  {
    if run == [] then Default() else Apply(After(run[..|run| - 1]), run[|run| - 1])
  }

  /** Everything ever appended. */
  function Appended(run: seq<Op>): seq<Sample> {
    if run == [] then []
    else
      var rest := Appended(run[..|run| - 1]);
      if run[|run| - 1].Append? then rest + run[|run| - 1].pcm else rest
  }

  /** How many samples have left at the front, played or dropped. */
  function Removed(run: seq<Op>): int
    requires Legal(run)
  {
    |Appended(run)| - |After(run).ring|
  }

  predicate IsSuffix<T(==)>(s: seq<T>, all: seq<T>) { |s| <= |all| && s == all[|all| - |s|..] }

  lemma NewestIsSuffix<T>(all: seq<T>, s: seq<T>, n: nat)
    requires IsSuffix(s, all)
    ensures IsSuffix(Newest(s, n), all) && IsSuffix([], all)
  {
  }

  lemma SuffixAppended<T>(all: seq<T>, s: seq<T>, more: seq<T>)
    requires IsSuffix(s, all)
    ensures IsSuffix(s + more, all + more)
  {
  }

  lemma SuffixStep(all: seq<Sample>, b: Buffer, op: Op)
    requires Shaped(b) && (op.Resize? ==> op.rate > 0) && IsSuffix(b.ring, all)
    ensures IsSuffix(Apply(b, op).ring, if op.Append? then all + op.pcm else all)
  {
    hide IsSuffix, Newest, Dropped, Bucket, Zeros, Bump, Due, Capacity;
    match op {
      case Append(pcm) =>
        SuffixAppended(all, b.ring, pcm);
        NewestIsSuffix(all + pcm, b.ring + pcm, Capacity(b.rate));
      case Shrink(level, now) =>
        NewestIsSuffix(all, b.ring, |b.ring| - Dropped(Bump(b.hist, Bucket(level, b.rate)), b));
      case Resize(rate) =>
        NewestIsSuffix(all, b.ring, 0);
      case Pop(n) =>
        NewestIsSuffix(all, b.ring, |b.ring| - Min(n, |b.ring|));
    }
  }

  /** Over every run the buffer holds a suffix of everything appended, within capacity. */
  lemma {:induction false} BufferIsSuffix(run: seq<Op>)
    requires Legal(run)
    ensures 0 <= Removed(run) && After(run).ring == Appended(run)[Removed(run)..]
    ensures |After(run).ring| <= Capacity(After(run).rate)
  {
    if run != [] {
      var init, op := run[..|run| - 1], run[|run| - 1];
      BufferIsSuffix(init);
      SuffixStep(Appended(init), After(init), op);
      hide Apply;
    }
  }

  /** Two-channel use: whole frames are appended and popped, and rates count both channels. */
  predicate Stereo(run: seq<Op>) { forall op | op in run :: StereoOp(op) }

  predicate StereoOp(op: Op) {
    match op
    case Append(pcm) => IsEven(|pcm|)
    case Shrink(_, _) => true
    case Resize(rate) => IsEven(rate)
    case Pop(n) => IsEven(n)
  }

  lemma SkipIsEven(h: seq<nat>, cap: nat, having: nat)
    requires |h| == BUCKETS
    ensures IsEven(Skip(h, cap, having))
  {
    SkipUnfolds(h, cap, having);
    hide Skip, DropLevel;
    RoundDown(Share(cap, DropLevel(h)));
  }

  lemma EvenSum(a: int, b: int)
    requires IsEven(a) && IsEven(b)
    ensures IsEven(a + b) && IsEven(a - b)
  {
  }

  lemma ParityStep(b: Buffer, op: Op)
    requires Shaped(b) && (op.Resize? ==> op.rate > 0) && StereoOp(op)
    requires IsEven(|b.ring|) && IsEven(b.rate)
    ensures IsEven(|Apply(b, op).ring|) && IsEven(Apply(b, op).rate)
  {
    var cap := Capacity(b.rate);
    EvenSum(b.rate, b.rate);
    EvenSum(b.rate + b.rate, b.rate);
    assert cap == b.rate + b.rate + b.rate && IsEven(0);
    hide IsEven, Capacity, Dropped, Bucket, Zeros;
    match op {
      case Append(pcm) => EvenSum(|b.ring|, |pcm|);
      case Shrink(level, now) =>
        var h := Bump(b.hist, Bucket(level, b.rate));
        assert IsEven(Dropped(h, b)) by { DroppedIsEven(h, b); }
        EvenSum(|b.ring|, Dropped(h, b));
      case Resize(rate) =>
      case Pop(n) =>
        EvenSum(|b.ring|, n);
    }
  }

  lemma DroppedIsEven(h: seq<nat>, b: Buffer)
    requires |h| == BUCKETS
    ensures IsEven(Dropped(h, b))
  {
    SkipIsEven(h, Capacity(b.rate), |b.ring|);
    hide Skip, IsEven;
  }

  lemma StereoSplit(run: seq<Op>)
    requires run != [] && Stereo(run) && Legal(run)
    ensures Stereo(run[..|run| - 1]) && Legal(run[..|run| - 1]) && StereoOp(run[|run| - 1])
  {
    assert run[|run| - 1] in run && forall o | o in run[..|run| - 1] :: o in run;
  }

  /** The count removed from the front stays even, so the channels never swap. */
  lemma {:induction false} ChannelsNeverSwap(run: seq<Op>)
    requires Legal(run) && Stereo(run)
    ensures IsEven(Removed(run)) && IsEven(|Appended(run)|)
    ensures IsEven(|After(run).ring|) && IsEven(After(run).rate)
  {
    assert IsEven(0) && IsEven(96000);
    hide Apply, IsEven, Shaped, Zeros, Stereo, StereoOp;
    if run != [] {
      var init, op := run[..|run| - 1], run[|run| - 1];
      StereoSplit(run);
      ChannelsNeverSwap(init);
      ParityStep(After(init), op);
      if op.Append? {
        EvenSum(|Appended(init)|, |op.pcm|);
      }
    }
    EvenSum(|Appended(run)|, |After(run).ring|);
  }

  // ---------- Shrinking within a run ----------

  /** Levels recorded since the histogram was last cleared. */
  function Levels(run: seq<Op>): seq<nat>
    requires Legal(run)
  {
    if run == [] then []
    else
      var init, op := run[..|run| - 1], run[|run| - 1];
      if !op.Shrink? then Levels(init)
      else if Due(After(init).tms, op.now) then []
      else Levels(init) + [op.level]
  }

  /** No resize has changed the rate since the histogram was last cleared. */
  predicate Steady(run: seq<Op>)
    requires Legal(run)
  {
    run == [] ||
    var init, op := run[..|run| - 1], run[|run| - 1];
    match op
    case Resize(rate) => Steady(init) && Capacity(rate) == Capacity(After(init).rate)
    case Shrink(_, now) => Steady(init) || Due(After(init).tms, now)
    case _ => Steady(init)
  }

  lemma {:induction false} HistogramOfPeriod(run: seq<Op>)
    requires Legal(run) && Steady(run)
    ensures After(run).hist == Histogram(Levels(run), After(run).rate)
  {
    if run != [] {
      var init, op := run[..|run| - 1], run[|run| - 1];
      var b := After(init);
      if op.Shrink? && Due(b.tms, op.now) {
      } else {
        HistogramOfPeriod(init);
        if op.Shrink? {
          assert (Levels(init) + [op.level])[..|Levels(init)|] == Levels(init);
        }
      }
    }
  }

  /** A shrink that is due, at any point of any run with no resize in its period:
      the samples it drops against any level recorded in the period. */
  lemma ShrinkInRun(run: seq<Op>, level: nat, now: int, i: nat)
    requires Legal(run) && Steady(run) && Due(After(run).tms, now)
    requires i <= |Levels(run)|
    ensures var b := After(run);
            var after := Apply(b, Shrink(level, now));
            var dropped := |b.ring| - |after.ring|;
            var seen := (Levels(run) + [level])[i];
            && after.hist == Zeros(BUCKETS)
            && after.ring == b.ring[dropped..]
            && 3 * (dropped - 1) <= 2 * seen
            && (Bucket(seen, b.rate) == 0 ==> dropped == 0)
            && (dropped > 0 ==> 3 * |after.ring| > 2 * |b.ring|)
  {
    hide Skip, Zeros, Bucket, Histogram, Apply, After, Levels, Bump, IsEven, Steady, Legal;
    var b := After(run);
    var levels := Levels(run) + [level];
    HistogramOfPeriod(run);
    HistogramNext(Levels(run), level, b.rate);
    DueShrink(b, level, now, levels);
    ShrinkIsGentle(levels, b.rate, |b.ring|, i);
  }

  lemma HistogramNext(levels: seq<nat>, level: nat, rate: nat)
    requires rate > 0
    ensures Histogram(levels + [level], rate) == Bump(Histogram(levels, rate), Bucket(level, rate))
  {
    assert (levels + [level])[..|levels|] == levels;
  }

  /** A due shrink clears the counters and drops what its histogram says. */
  lemma DueShrink(b: Buffer, level: nat, now: int, levels: seq<nat>)
    requires Shaped(b) && b.tms != 0 && now - b.tms >= 12000
    requires Bump(b.hist, Bucket(level, b.rate)) == Histogram(levels, b.rate)
    ensures var dropped := Skip(Histogram(levels, b.rate), 3 * b.rate, |b.ring|);
            && dropped <= |b.ring| && Apply(b, Shrink(level, now)).hist == Zeros(BUCKETS)
            && Apply(b, Shrink(level, now)).ring == b.ring[dropped..]
  {
    assert Capacity(b.rate) == 3 * b.rate;
    hide Skip, Zeros, Bucket, Histogram, Bump, Capacity;
    assert Dropped(Histogram(levels, b.rate), b) == Skip(Histogram(levels, b.rate), 3 * b.rate, |b.ring|);
  }

  // ---------- What each operation does, written out ----------

  lemma BucketWrittenOut(level: nat, rate: nat)
    requires rate > 0
    ensures var b := Bucket(level, rate);
            if 10 * level >= 29 * rate then b == 29 else b * rate <= 10 * level < b * rate + rate
  {
    var q := level * 10 / rate;
    QuotientBounds(level * 10, rate);
    if 10 * level >= 29 * rate {
      if q < 29 {
        TimesMonotone(q + 1, 29, rate);
      }
    } else if q >= 29 {
      TimesMonotone(29, q, rate);
    }
  }

  lemma QuotientBounds(a: nat, n: nat)
    requires n > 0
    ensures a / n * n <= a < a / n * n + n
  {
  }

  /** A counter is the number of levels that fall in its bucket. */
  lemma {:induction false} HistogramCounted(levels: seq<nat>, rate: nat, b: nat)
    requires rate > 0 && b < 30
    ensures Histogram(levels, rate)[b] == |set i | 0 <= i < |levels| && Bucket(levels[i], rate) == b|
  {
    if levels != [] {
      HistogramCounted(levels[..|levels| - 1], rate, b);
      hide Bucket;
      OneMoreIn(levels, rate, b);
    }
  }

  lemma OneMoreIn(levels: seq<nat>, rate: nat, b: nat)
    requires rate > 0 && levels != []
    ensures var init := levels[..|levels| - 1];
            |set i | 0 <= i < |levels| && Bucket(levels[i], rate) == b| ==
            |set i | 0 <= i < |init| && Bucket(init[i], rate) == b| +
            if Bucket(levels[|levels| - 1], rate) == b then 1 else 0
  {
    hide Bucket;
    var init := levels[..|levels| - 1];
    var before := set i | 0 <= i < |init| && Bucket(init[i], rate) == b;
    var all := set i | 0 <= i < |levels| && Bucket(levels[i], rate) == b;
    assert all == before + if Bucket(levels[|init|], rate) == b then {|init|} else {};
  }

  lemma RunNext(run: seq<Op>, op: Op)
    requires Legal(run) && (op.Resize? ==> op.rate > 0)
    ensures Legal(run + [op]) && After(run + [op]) == Apply(After(run), op)
    ensures Appended(run + [op]) == if op.Append? then Appended(run) + op.pcm else Appended(run)
  {
    assert (run + [op])[..|run|] == run;
  }

  /** How many samples leave at the front at each operation: at an append what does not
      fit in three seconds, at a pop what is asked for, at a resize to another rate
      everything, at a shrink that is not due nothing. */
  lemma LeavesFront(run: seq<Op>, op: Op)
    requires Legal(run) && (op.Resize? ==> op.rate > 0)
    ensures Legal(run + [op])
    ensures var b := After(run);
            var left := Removed(run + [op]) - Removed(run);
            match op
            case Append(pcm) => left == if |b.ring| + |pcm| <= 3 * b.rate then 0 else |b.ring| + |pcm| - 3 * b.rate
            case Pop(n) => left == if n <= |b.ring| then n else |b.ring|
            case Resize(rate) => left == if rate == b.rate then 0 else |b.ring|
            case Shrink(_, now) => (b.tms == 0 || now - b.tms < 12000) ==> left == 0
  {
    RunNext(run, op);
    hide After, Appended, Dropped, Zeros, Bucket, Bump;
    var b := After(run);
    assert Capacity(b.rate) == 3 * b.rate;
  }

  /** The rate follows resizes, the counters and the timer the calls of try_shrink:
      the first only starts the timer, one within twelve seconds only counts, any
      later one clears the counters and restarts the timer. */
  lemma StateWrittenOut(b: Buffer, op: Op)
    requires Shaped(b) && (op.Resize? ==> op.rate > 0)
    ensures var n := Apply(b, op);
            && n.rate == (if op.Resize? then op.rate else b.rate)
            && (!op.Shrink? ==> n.hist == b.hist && n.tms == b.tms)
            && (op.Shrink? && b.tms != 0 && op.now - b.tms >= 12000 ==>
                  n.tms == op.now && forall i | 0 <= i < 30 :: n.hist[i] == 0)
            && (op.Shrink? && (b.tms == 0 || op.now - b.tms < 12000) ==>
                  && n.tms == (if b.tms == 0 then op.now else b.tms)
                  && forall i | 0 <= i < 30 ::
                       n.hist[i] == b.hist[i] + if i == Bucket(op.level, b.rate) then 1 else 0)
  {
    hide Dropped, Bucket;
  }

  /** The first z counters are zero and the next, if any, is not. */
  predicate LeadingZeros(h: seq<nat>, z: nat) {
    z <= |h| && (forall b | 0 <= b < z :: h[b] == 0) && (z < |h| ==> h[z] != 0)
  }

  /** m is the first of the fullest counters above counter 0. */
  predicate FirstFullest(h: seq<nat>, m: nat) {
    && 1 <= m < |h| && h[m] > 0
    && (forall b | 1 <= b < |h| :: h[b] <= h[m])
    && (forall b | 1 <= b < m :: h[b] < h[m])
  }

  /** Exactly what a due shrink drops: nothing if only counter 0 was used or the
      fullest counter stands for less than 600 ms; otherwise the lesser of that
      counter and four times two thirds of the leading zeros, in fortieths of a
      second's samples, made even, unless a third of the buffer is not more. */
  lemma DropWrittenOut(h: seq<nat>, rate: nat, having: nat, z: nat, m: nat)
    requires |h| == 30 && LeadingZeros(h, z)
    ensures (forall b | 1 <= b < 30 :: h[b] == 0) ==> Skip(h, 3 * rate, having) == 0
    ensures FirstFullest(h, m) ==>
              var level := if m <= z * 2 / 3 * 4 then m else z * 2 / 3 * 4;
              var skip := (rate * level / 40 + 1) / 2 * 2;
              Skip(h, 3 * rate, having) == if m < 6 || having <= 3 * skip then 0 else skip
  {
    ScanState(h, 30);
    ScanCandidate(h, 30);
    var (zero, max, _) := Scan(h, 30);
    assert zero == z;
    hide Scan;
    if FirstFullest(h, m) {
      assert max == m;
      var level := if m <= z * 2 / 3 * 4 then m else z * 2 / 3 * 4;
      if m >= 6 {
        assert DropLevel(h) == level;
      }
    }
    SkipUnfolds(h, 3 * rate, having);
    Fortieths(rate, DropLevel(h));
    hide DropLevel, Skip, Share;
  }

  lemma Fortieths(rate: nat, level: nat)
    ensures Share(3 * rate, level) == rate * level / 40
    ensures level == 0 ==> Share(3 * rate, level) == 0
  {
    assert 3 * rate * level == 3 * (rate * level);
    ThirdOf(rate * level);
  }

  lemma ThirdOf(n: nat)
    ensures 3 * n / 120 == n / 40
  {
  }

  /** A steady backlog is dropped: when every level of the period fell in bucket b, from
      600 ms up, a shrink drops b fortieths of a second's samples if more than three
      times that many are buffered. */
  lemma SteadyBacklogDropped(levels: seq<nat>, rate: nat, having: nat, b: nat)
    requires rate > 0 && levels != [] && 6 <= b < 30 && forall i | 0 <= i < |levels| :: Bucket(levels[i], rate) == b
    requires having > 3 * ((rate * b / 40 + 1) / 2 * 2)
    ensures Skip(Histogram(levels, rate), 3 * rate, having) == (rate * b / 40 + 1) / 2 * 2
  {
    var h := Histogram(levels, rate);
    forall c | 0 <= c < 30
      ensures h[c] > 0 <==> c == b
    {
      HistogramCounted(levels, rate, c);
      var counted := set i | 0 <= i < |levels| && Bucket(levels[i], rate) == c;
      if c == b {
        assert 0 in counted;
      } else {
        assert counted == {};
      }
    }
    hide Histogram, Bucket;
    DropWrittenOut(h, rate, having, b, b);
  }

  // ---------- The object ----------

  class AudioBuffer {
    var ring: seq<Sample>
    var capacity: nat
    var rate: nat
    const hist: array<nat>
    var tms: int

    ghost predicate Valid() reads this, hist {
      hist.Length == BUCKETS && rate > 0 && capacity == Capacity(rate) && |ring| <= capacity
    }

    ghost function View(): (b: Buffer)
      requires Valid()
      reads this, hist
      ensures Shaped(b)
    {
      Buffer(ring, rate, hist[..], tms)
    }

    constructor ()
      ensures Valid() && View() == Default() && fresh(hist)
      ensures ring == [] && rate == 96_000 && capacity == 288_000 && tms == 0
    {
      ring := [];
      capacity := 48000 * 2 * AUDIO_BUFFER_MS / 1000;
      rate := 48000 * 2;
      hist := new nat[30](_ => 0);
      tms := 0;
    }

    method ResizeTo(sampleRate: nat, channels: nat)
      requires Valid() && sampleRate * channels > 0
      modifies this
      ensures Valid() && View() == Apply(old(View()), Resize(sampleRate * channels))
    {
      var wanted := sampleRate * channels * AUDIO_BUFFER_MS / 1000;
      if wanted != capacity {
        ring, capacity := [], wanted;
        rate := sampleRate * channels;
      }
    }

    method AppendPcm2(buffer: seq<Sample>) returns (having: nat)
      requires Valid()
      modifies this
      ensures Valid() && View() == Apply(old(View()), Append(buffer)) && having == |ring|
    {
      if |buffer| > capacity {
        ring := buffer[|buffer| - capacity..];
        assert Newest(old(ring) + buffer, capacity) == ring;
        return capacity;
      }
      var total := |ring| + |buffer|;
      if total > capacity {
        ring := ring[total - capacity..];
      }
      ring := ring + buffer;
      assert Newest(old(ring) + buffer, capacity) == ring;
      having := |ring|;
    }

    method TryShrink(having: nat, dt: int)
      requires Valid()
      modifies this, hist
      ensures Valid() && View() == Apply(old(View()), Shrink(having, dt))
    {
      hide Scan, Zeros, Skip;
      var bucket := having * 10 / rate;
      if bucket > 29 {
        bucket := 29;
      }
      hist[bucket] := hist[bucket] + 1;
      assert hist[..] == Bump(old(hist[..]), Bucket(having, rate));
      if tms == 0 {
        tms := dt;
        return;
      } else if dt < tms + 12000 {
        return;
      }
      tms := dt;
      DropBacklog();
    }

    /** The part of try_shrink that runs once every twelve seconds. */
    method DropBacklog()
      requires Valid()
      modifies this`ring, hist
      ensures Valid() && hist[..] == Zeros(BUCKETS)
      ensures ring == Newest(old(ring), |old(ring)| - Dropped(old(hist[..]), old(View())))
    {
      hide Scan, Zeros, Share, Skip, Capacity, DropLevel;
      ghost var h := hist[..];
      SkipUnfolds(h, capacity, |ring|);
      var zero, max := ScanHistogram(h);
      hist[max] := 0;
      assert hist[..] == Zeros(BUCKETS) by { ScanClears(h); }
      var level := ChooseLevel(h, zero, max);
      var skip := Even(Share(capacity, level) + 1);
      if |ring| > skip * 3 && skip > 0 {
        ring := ring[skip..];
      }
    }

    /** min(zero, max) in the code's units; 0 stands for the early return. */
    static method ChooseLevel(ghost h: seq<nat>, zero: nat, max: nat) returns (level: nat)
      requires |h| == BUCKETS && Scan(h, BUCKETS).0 == zero && Scan(h, BUCKETS).1 == max
      ensures level == DropLevel(h)
    {
      hide Scan;
      var mark := zero * 2 / 3;
      if max < 6 {
        return 0;
      } else if max > mark * 4 {
        return mark * 4;
      }
      level := max;
    }

    /** The loop of try_shrink, clearing counters as it goes. */
    method ScanHistogram(ghost h: seq<nat>) returns (zero: nat, max: nat)
      requires Valid() && h == hist[..]
      modifies hist
      ensures Valid() && max < BUCKETS && (zero, max, hist[..]) == Scan(h, BUCKETS)
    {
      zero, max := 0, 0;
      var i := 0;
      while i < 30
        invariant 0 <= i <= 30 && max < BUCKETS
        invariant (zero, max, hist[..]) == Scan(h, i)
      {
        if hist[i] == 0 && zero == i {
          zero := zero + 1;
        }
        if hist[i] > hist[max] {
          hist[max] := 0;
          max := i;
        } else {
          hist[i] := 0;
        }
        i := i + 1;
      }
    }

    method AppendPcm(buffer: seq<Sample>, dt: int)
      requires Valid()
      modifies this, hist
      ensures Valid()
      ensures View() == Apply(Apply(old(View()), Append(buffer)), Shrink(|Apply(old(View()), Append(buffer)).ring|, dt))
    {
      var having := AppendPcm2(buffer);
      TryShrink(having, dt);
    }

    /** The output callback: up to n samples, in order, from the front. */
    method PopSlice(n: nat) returns (elems: seq<Sample>)
      requires Valid()
      modifies this
      ensures Valid() && View() == Apply(old(View()), Pop(n))
      ensures elems + ring == old(ring) && |elems| == Min(n, |old(ring)|)
    {
      var k := if |ring| < n then |ring| else n;
      elems := ring[..k];
      ring := ring[k..];
    }
  }
}
