/** process_event and release_remote_keys of libs/rustdesk/src/keyboard.rs at the
    grain of their locks. The grab thread and the thread that releases the keys
    each read MODIFIERS_STATE, write MODIFIERS_STATE, write TO_RELEASE and send,
    and the other thread may run between any two of these. */
module KeyboardRaces {
  import opened Basics
  import opened Keyboard

  // ---------- Two calls of process_event in flight ----------

  /** How far a call of process_event is: past the long-press filter, past the
      update of MODIFIERS_STATE, or past the update of TO_RELEASE. */
  datatype Call = NoCall | Passed(event: Event) | Marked(event: Event) | Tracked(event: Event)

  datatype Threads = Threads(s: State, grab: Call, drain: Call, r: Releasing)

  datatype Move = UserKey(event: Event) | GrabGoes | CloneTable | ClearTable | Release(key: Key) | StrokeGoes | DrainGoes | Done

  /** Entering process_event: the filter. */
  function Enter(s: State, e: Event): Call { if LongPress(s, e) then NoCall else Passed(e) }

  /** The next locked section, or the send, of a call. */
  function Advance(l: Layout, s: State, c: Call): State {
    match c
    case NoCall => s
    case Passed(e) => s.(modifiers := UpdateModifiers(s.modifiers, e))
    case Marked(e) => s.(toRelease := Track(s.toRelease, e))
    case Tracked(e) => s.(sent := s.sent + MapMode(l, e))
  }

  function NextStage(c: Call): Call {
    match c
    case Passed(e) => Marked(e)
    case Marked(e) => Tracked(e)
    case _ => NoCall
  }

  function Moved(l: Layout, y: Threads, m: Move): Option<Threads> {
    match m
    case UserKey(e) => if y.grab == NoCall && Genuine(l, e) then Some(y.(grab := Enter(y.s, e))) else None
    case GrabGoes =>
      if y.grab != NoCall then Some(y.(s := Advance(l, y.s, y.grab), grab := NextStage(y.grab))) else None
    case DrainGoes =>
      if y.drain != NoCall then Some(y.(s := Advance(l, y.s, y.drain), drain := NextStage(y.drain))) else None
    case CloneTable => if y.r == Idle then Some(y.(r := Cloned(y.s.toRelease))) else None
    case ClearTable =>
      if y.r.Cloned? then Some(y.(s := y.s.(toRelease := map[]), r := Draining(y.r.snapshot, None))) else None
    case Release(k) =>
      if y.r.Draining? && y.r.stroke.None? && y.drain == NoCall && k in y.r.pending then
        var raw := y.r.pending[k].raw;
        Some(y.(drain := Enter(y.s, Event(KeyRelease(k), raw)),
                r := Draining(y.r.pending - {k}, if IsAlt(k) then Some(Stroke(k, raw, false)) else None)))
      else None
    case StrokeGoes =>
      if y.r.Draining? && y.r.stroke.Some? && y.drain == NoCall then
        var Stroke(k, raw, pressed) := y.r.stroke.value;
        Some(y.(drain := Enter(y.s, Event(if pressed then KeyRelease(k) else KeyPress(k), raw)),
                r := Draining(y.r.pending, if pressed then None else Some(Stroke(k, raw, true)))))
      else None
    case Done => if y.r == Draining(map[], None) && y.drain == NoCall then Some(y.(r := Idle)) else None
  }

  const START := Threads(Keyboard.INIT, NoCall, NoCall, Idle)

  function After(l: Layout, y: Threads, run: seq<Move>): Option<Threads> {
    if run == [] then Some(y)
    else
      match After(l, y, run[..|run| - 1])
      case None => None
      case Some(z) => Moved(l, z, run[|run| - 1])
  }

  // ---------- What is still due ----------

  /** Keys whose release the drain has yet to start. */
  function Due(r: Releasing): set<Key> {
    if !r.Draining? then {}
    else r.pending.Keys + if r.stroke.Some? then {r.stroke.value.key} else {}
  }

  /** The key whose release a call has still to send. */
  function Releases(c: Call): set<Key> {
    if c != NoCall && c.event.kind.KeyRelease? then {c.event.kind.key} else {}
  }

  /** The modifier a call is about to unmark, about to untrack, about to track. */
  function Unmarks(c: Call): set<Key> { if c.Passed? then Releases(c) else {} }

  function Untracks(c: Call): set<Key> { if c.Marked? then Releases(c) else {} }

  function Tracks(c: Call): set<Key> {
    if c.Marked? && c.event.kind.KeyPress? then {c.event.kind.key} else {}
  }

  // ---------- Invariant: the two calls c and d play the same part ----------

  /** Every code the peer holds is that of a key that is tracked or will be released. */
  predicate CodesDue(l: Layout, s: State, c: Call, d: Call, due: set<Key>) {
    Covered(l, Held(s.sent), s.toRelease.Keys + Releases(c) + Releases(d) + due)
  }

  /** A tracked modifier is marked, or is about to be untracked. */
  predicate TrackedMarked(s: State, c: Call, d: Call) {
    && s.modifiers.Keys == MODIFIERS
    && forall k | k in MODIFIERS && k in s.toRelease :: s.modifiers[k] || k in Untracks(c) + Untracks(d)
  }

  /** A marked modifier is tracked, about to be tracked, or will be unmarked. */
  predicate MarkedTracked(s: State, c: Call, d: Call, due: set<Key>) {
    && s.modifiers.Keys == MODIFIERS
    && forall k | k in MODIFIERS && s.modifiers[k] ::
         k in s.toRelease.Keys + due + Unmarks(c) + Unmarks(d) + Tracks(c) + Tracks(d)
  }

  predicate Sane(l: Layout, s: State, c: Call, d: Call, due: set<Key>) {
    CodesDue(l, s, c, d, due) && TrackedMarked(s, c, d) && MarkedTracked(s, c, d, due)
  }

  /** Every stored event carries the raw code of its own key. */
  predicate Raws(l: Layout, y: Threads) {
    && RawKept(l, y.s.toRelease)
    && (y.grab != NoCall ==> Genuine(l, y.grab.event)) && (y.drain != NoCall ==> Genuine(l, y.drain.event))
    && (y.r.Cloned? ==> RawKept(l, y.r.snapshot))
    && (y.r.Draining? ==> RawKept(l, y.r.pending))
    && (y.r.Draining? && y.r.stroke.Some? ==> y.r.stroke.value.raw == l.rawOf(y.r.stroke.value.key))
    && (!y.r.Draining? ==> y.drain == NoCall)
  }

  predicate NothingForgotten(l: Layout, y: Threads) { Sane(l, y.s, y.grab, y.drain, Due(y.r)) }

  // ---------- Exactly which moves are harmless ----------

  /** The code, if there is one, belongs to one of the keys. */
  predicate CodeAmong(l: Layout, k: Key, keys: set<Key>) {
    CodeOf(l, k).Some? ==> Covered(l, {CodeOf(l, k).value}, keys)
  }

  /** Call c may take its next step while call d is where it is:
      - a press may track a modifier only if the mark it set is still there, or
        the release that took it away is about to untrack the key;
      - a release may untrack a modifier only if nothing has marked it since, or
        whatever did will still track or release it;
      - a press may be sent only if some key with its code is still tracked or due. */
  predicate MayAdvance(l: Layout, s: State, c: Call, d: Call, due: set<Key>)
    requires s.modifiers.Keys == MODIFIERS
  {
    match c
    case Marked(Event(KeyPress(k), _)) => k in MODIFIERS ==> s.modifiers[k] || k in Untracks(d)
    case Marked(Event(KeyRelease(k), _)) => k in MODIFIERS && s.modifiers[k] ==> k in due + Unmarks(d) + Tracks(d)
    case Tracked(Event(KeyPress(k), _)) => CodeAmong(l, k, s.toRelease.Keys + Releases(d) + due)
    case _ => true
  }

  /** The clear forgets no code: a key tracked since the clone that is down at the
      peer shares its code with a key of the clone or one being released. */
  predicate ClearKeepsCodes(l: Layout, y: Threads)
    requires y.r.Cloned?
  {
    forall k | k in y.s.toRelease && k !in y.r.snapshot && CodeOf(l, k).Some? && CodeOf(l, k).value in Held(y.s.sent) ::
      CodeAmong(l, k, y.r.snapshot.Keys + Releases(y.grab))
  }

  /** The clear forgets no mark: a modifier tracked since the clone is unmarked, or
      the event in flight will still track or unmark it. */
  predicate ClearKeepsMarks(y: Threads)
    requires y.r.Cloned? && y.s.modifiers.Keys == MODIFIERS
  {
    forall k | k in y.s.toRelease && k !in y.r.snapshot && k in MODIFIERS && y.s.modifiers[k] ::
      k in Unmarks(y.grab) + Tracks(y.grab)
  }

  predicate Harmless(l: Layout, y: Threads, m: Move)
    requires y.s.modifiers.Keys == MODIFIERS
  {
    match m
    case GrabGoes => MayAdvance(l, y.s, y.grab, y.drain, Due(y.r))
    case DrainGoes => MayAdvance(l, y.s, y.drain, y.grab, Due(y.r))
    case ClearTable => y.r.Cloned? ==> ClearKeepsCodes(l, y) && ClearKeepsMarks(y)
    case _ => true
  }

  lemma CodesDueIff(l: Layout, s: State, c: Call, d: Call, due: set<Key>)
    requires Sane(l, s, c, d, due) && c != NoCall && Genuine(l, c.event)
    ensures CodesDue(l, Advance(l, s, c), NextStage(c), d, due) <==>
            (c.Tracked? && c.event.kind.KeyPress? ==>
               CodeAmong(l, c.event.kind.key, s.toRelease.Keys + Releases(d) + due))
  {
    hide TrackedMarked, MarkedTracked;
    var n, e := Advance(l, s, c), c.event;
    var keys := s.toRelease.Keys + Releases(c) + Releases(d) + due;
    var after := n.toRelease.Keys + Releases(NextStage(c)) + Releases(d) + due;
    if c.Tracked? {
      HeldAppend(s.sent, MapMode(l, e));
      if e.kind.KeyPress? {
        assert after == keys == s.toRelease.Keys + Releases(d) + due;
        PressCovered(l, s.sent, e, keys);
      } else if e.kind.KeyRelease? {
        ReleaseCovered(l, s.sent, e, keys, after);
      } else {
        assert after == keys;
      }
    } else {
      assert keys <= after by { assert c.Marked? && e.kind.KeyRelease? ==> e.kind.key in Releases(NextStage(c)); }
      CoveredByMore(l, Held(s.sent), keys, after);
    }
  }

  lemma PressCovered(l: Layout, sent: seq<KeyEvent>, e: Event, keys: set<Key>)
    requires Genuine(l, e) && e.kind.KeyPress? && Covered(l, Held(sent), keys)
    ensures Covered(l, Held(sent + MapMode(l, e)), keys) <==> CodeAmong(l, e.kind.key, keys)
  {
    HeldAppend(sent, MapMode(l, e));
    if CodeOf(l, e.kind.key).Some? {
      assert Held(sent + MapMode(l, e)) == Held(sent) + {CodeOf(l, e.kind.key).value};
    }
  }

  lemma ReleaseCovered(l: Layout, sent: seq<KeyEvent>, e: Event, keys: set<Key>, after: set<Key>)
    requires Genuine(l, e) && e.kind.KeyRelease? && Covered(l, Held(sent), keys)
    requires forall k | k in keys && k != e.kind.key :: k in after
    ensures Covered(l, Held(sent + MapMode(l, e)), after)
  {
    HeldAppend(sent, MapMode(l, e));
    forall c | c in Held(sent + MapMode(l, e))
      ensures exists k | k in after :: CodeOf(l, k) == Some(c)
    {
      var k :| k in keys && CodeOf(l, k) == Some(c);
      assert k in after;
    }
  }

  lemma CoveredByMore(l: Layout, held: set<nat>, keys: set<Key>, more: set<Key>)
    requires Covered(l, held, keys) && keys <= more
    ensures Covered(l, held, more)
  {
  }

  lemma TrackedMarkedIff(l: Layout, s: State, c: Call, d: Call, due: set<Key>)
    requires Sane(l, s, c, d, due) && c != NoCall
    ensures TrackedMarked(Advance(l, s, c), NextStage(c), d) <==>
            (c.Marked? && c.event.kind.KeyPress? && c.event.kind.key in MODIFIERS ==>
               s.modifiers[c.event.kind.key] || c.event.kind.key in Untracks(d))
  {
    hide CodesDue, MarkedTracked, MapMode;
    var e := c.event;
    if c.Marked? && e.kind.KeyPress? && e.kind.key in MODIFIERS {
      assert e.kind.key in Advance(l, s, c).toRelease;
    }
  }

  lemma MarkedTrackedIff(l: Layout, s: State, c: Call, d: Call, due: set<Key>)
    requires Sane(l, s, c, d, due) && c != NoCall
    ensures MarkedTracked(Advance(l, s, c), NextStage(c), d, due) <==>
            (c.Marked? && c.event.kind.KeyRelease? && c.event.kind.key in MODIFIERS && s.modifiers[c.event.kind.key] ==>
               c.event.kind.key in due + Unmarks(d) + Tracks(d))
  {
    hide CodesDue, TrackedMarked, MapMode;
  }

  /** A step of either call keeps the invariant exactly when it is allowed. */
  lemma AdvanceIff(l: Layout, s: State, c: Call, d: Call, due: set<Key>)
    requires Sane(l, s, c, d, due) && c != NoCall && Genuine(l, c.event)
    ensures Sane(l, Advance(l, s, c), NextStage(c), d, due) <==> MayAdvance(l, s, c, d, due)
  {
    CodesDueIff(l, s, c, d, due);
    TrackedMarkedIff(l, s, c, d, due);
    MarkedTrackedIff(l, s, c, d, due);
    hide CodesDue, MarkedTracked, CodeAmong;
  }

  /** The two calls play the same part. */
  lemma SaneSwaps(l: Layout, s: State, c: Call, d: Call, due: set<Key>)
    ensures Sane(l, s, c, d, due) <==> Sane(l, s, d, c, due)
  {
    assert s.toRelease.Keys + Releases(c) + Releases(d) + due == s.toRelease.Keys + Releases(d) + Releases(c) + due;
    hide Covered, Held;
    MarksSwap(s, c, d, due);
    hide TrackedMarked, MarkedTracked;
  }

  lemma MarksSwap(s: State, c: Call, d: Call, due: set<Key>)
    ensures TrackedMarked(s, c, d) <==> TrackedMarked(s, d, c)
    ensures MarkedTracked(s, c, d, due) <==> MarkedTracked(s, d, c, due)
  {
    hide Unmarks, Untracks, Tracks;
  }

  /** Starting a call changes nothing; a release that starts takes over what was due. */
  lemma EnterKeeps(l: Layout, s: State, d: Call, due: set<Key>, e: Event, left: set<Key>)
    requires Sane(l, s, NoCall, d, due)
    requires due <= left + if e.kind.KeyRelease? then {e.kind.key} else {}
    ensures Sane(l, s, Enter(s, e), d, left)
  {
    var c := Enter(s, e);
    assert due <= left + Unmarks(c) && Unmarks(c) <= Releases(c);
    CoveredByMore(l, Held(s.sent), s.toRelease.Keys + Releases(NoCall) + Releases(d) + due,
                  s.toRelease.Keys + Releases(c) + Releases(d) + left);
    hide Covered, Enter;
  }

  lemma ClearIff(l: Layout, y: Threads)
    requires NothingForgotten(l, y) && Raws(l, y) && y.r.Cloned?
    ensures NothingForgotten(l, Moved(l, y, ClearTable).value) <==> ClearKeepsCodes(l, y) && ClearKeepsMarks(y)
  {
    var n := Moved(l, y, ClearTable).value;
    assert TrackedMarked(n.s, n.grab, n.drain);
    ClearCodes(l, y);
    ClearMarks(l, y);
    hide CodesDue, TrackedMarked, MarkedTracked, ClearKeepsCodes, ClearKeepsMarks, Raws, Moved;
  }

  lemma ClearCodes(l: Layout, y: Threads)
    requires NothingForgotten(l, y) && Raws(l, y) && y.r.Cloned?
    ensures var n := Moved(l, y, ClearTable).value;
            CodesDue(l, n.s, n.grab, n.drain, Due(n.r)) <==> ClearKeepsCodes(l, y)
  {
    hide TrackedMarked, MarkedTracked;
    var n := Moved(l, y, ClearTable).value;
    var keys := y.r.snapshot.Keys + Releases(y.grab);
    assert n.s.toRelease.Keys + Releases(n.grab) + Releases(n.drain) + Due(n.r) == keys;
    if ClearKeepsCodes(l, y) {
      forall c | c in Held(y.s.sent)
        ensures exists k | k in keys :: CodeOf(l, k) == Some(c)
      {
        var k :| k in y.s.toRelease.Keys + Releases(y.grab) + Releases(y.drain) + Due(y.r) && CodeOf(l, k) == Some(c);
        if k !in keys {
          assert CodeAmong(l, k, keys) && c in {c};
        }
      }
    }
  }

  lemma ClearMarks(l: Layout, y: Threads)
    requires NothingForgotten(l, y) && Raws(l, y) && y.r.Cloned?
    ensures var n := Moved(l, y, ClearTable).value;
            MarkedTracked(n.s, n.grab, n.drain, Due(n.r)) <==> ClearKeepsMarks(y)
  {
    hide CodesDue, TrackedMarked;
  }

  /** One move of either thread: everything down stays accounted for if and only if
      the move is harmless. */
  lemma MoveIff(l: Layout, y: Threads, m: Move)
    requires NothingForgotten(l, y) && Raws(l, y) && Moved(l, y, m).Some?
    ensures NothingForgotten(l, Moved(l, y, m).value) <==> Harmless(l, y, m)
  {
    var n := Moved(l, y, m).value;
    match m {
      case UserKey(e) => EnterKeeps(l, y.s, y.drain, Due(y.r), e, Due(y.r));
      case GrabGoes => AdvanceIff(l, y.s, y.grab, y.drain, Due(y.r));
      case DrainGoes =>
        SaneSwaps(l, y.s, y.grab, y.drain, Due(y.r));
        AdvanceIff(l, y.s, y.drain, y.grab, Due(y.r));
        SaneSwaps(l, n.s, n.grab, n.drain, Due(n.r));
      case CloneTable =>
      case ClearTable => ClearIff(l, y);
      case Release(k) =>
        SaneSwaps(l, y.s, y.grab, y.drain, Due(y.r));
        EnterKeeps(l, y.s, y.grab, Due(y.r), Event(KeyRelease(k), y.r.pending[k].raw), Due(n.r));
        SaneSwaps(l, n.s, n.grab, n.drain, Due(n.r));
      case StrokeGoes =>
        var Stroke(k, raw, pressed) := y.r.stroke.value;
        SaneSwaps(l, y.s, y.grab, y.drain, Due(y.r));
        EnterKeeps(l, y.s, y.grab, Due(y.r), Event(if pressed then KeyRelease(k) else KeyPress(k), raw), Due(n.r));
        SaneSwaps(l, n.s, n.grab, n.drain, Due(n.r));
      case Done => assert Due(y.r) == Due(n.r) == {};
    }
  }

  lemma MoveKeepsRaws(l: Layout, y: Threads, m: Move)
    requires Raws(l, y) && Moved(l, y, m).Some?
    ensures Raws(l, Moved(l, y, m).value) && Moved(l, y, m).value.s.modifiers.Keys == y.s.modifiers.Keys
  {
    hide MapMode, LongPress;
  }

  // ---------- Whole runs ----------

  lemma {:induction false} RunKeepsRaws(l: Layout, run: seq<Move>)
    requires After(l, START, run).Some?
    ensures Raws(l, After(l, START, run).value) && After(l, START, run).value.s.modifiers.Keys == MODIFIERS
  {
    if run != [] {
      hide Raws, Moved;
      RunKeepsRaws(l, run[..|run| - 1]);
      MoveKeepsRaws(l, After(l, START, run[..|run| - 1]).value, run[|run| - 1]);
    }
  }

  /** Nothing down is forgotten at any point of the run. */
  ghost predicate NeverForgets(l: Layout, run: seq<Move>) {
    forall n: nat | n <= |run| :: After(l, START, run[..n]).Some? && NothingForgotten(l, After(l, START, run[..n]).value)
  }

  /** Every move of the run is harmless where it is made. */
  ghost predicate AllHarmless(l: Layout, run: seq<Move>) {
    forall n: nat | n < |run| ::
      && After(l, START, run[..n]).Some? && After(l, START, run[..n]).value.s.modifiers.Keys == MODIFIERS
      && Harmless(l, After(l, START, run[..n]).value, run[n])
  }

  lemma {:induction false} HarmlessKeeps(l: Layout, run: seq<Move>, n: nat)
    requires After(l, START, run).Some? && AllHarmless(l, run) && n <= |run|
    ensures After(l, START, run[..n]).Some? && NothingForgotten(l, After(l, START, run[..n]).value)
  {
    hide NothingForgotten, Harmless, Moved, Raws;
    PrefixRuns(l, run, n);
    if n == 0 {
      StartSane(l);
    } else {
      HarmlessKeeps(l, run, n - 1);
      RunKeepsRaws(l, run[..n - 1]);
      assert run[..n][..n - 1] == run[..n - 1];
      MoveIff(l, After(l, START, run[..n - 1]).value, run[n - 1]);
    }
  }

  lemma StartSane(l: Layout)
    ensures NothingForgotten(l, START)
  {
  }

  lemma {:induction false} PrefixRuns(l: Layout, run: seq<Move>, n: nat)
    requires After(l, START, run).Some? && n <= |run|
    ensures After(l, START, run[..n]).Some?
    decreases |run| - n
  {
    if n < |run| {
      PrefixRuns(l, run, n + 1);
      assert run[..n + 1][..n] == run[..n];
    } else {
      assert run[..n] == run;
    }
  }

  /** In every run of the two threads, whatever is down at the peer or marked stays
      accounted for throughout if and only if every move is harmless. */
  lemma NeverForgetsIff(l: Layout, run: seq<Move>)
    requires After(l, START, run).Some?
    ensures NeverForgets(l, run) <==> AllHarmless(l, run)
  {
    hide NothingForgotten, Harmless, Moved, Raws;
    if AllHarmless(l, run) {
      forall n: nat | n <= |run|
        ensures After(l, START, run[..n]).Some? && NothingForgotten(l, After(l, START, run[..n]).value)
      {
        HarmlessKeeps(l, run, n);
      }
    }
    if NeverForgets(l, run) {
      forall n: nat | n < |run|
        ensures After(l, START, run[..n]).Some? && After(l, START, run[..n]).value.s.modifiers.Keys == MODIFIERS
        ensures Harmless(l, After(l, START, run[..n]).value, run[n])
      {
        assert NothingForgotten(l, After(l, START, run[..n + 1]).value);
        RunKeepsRaws(l, run[..n]);
        assert run[..n + 1][..n] == run[..n];
        MoveIff(l, After(l, START, run[..n]).value, run[n]);
      }
    }
  }

  /** Outside a release and with no event half processed. */
  predicate AtRest(y: Threads) { y.grab == NoCall && y.drain == NoCall && y.r == Idle }

  /** A run of harmless moves: whenever both threads are at rest, every code the
      peer holds is that of a key in TO_RELEASE, and a modifier is marked down
      exactly when it is in TO_RELEASE. */
  lemma TablesAgreeAtRest(l: Layout, run: seq<Move>)
    requires After(l, START, run).Some? && AllHarmless(l, run) && AtRest(After(l, START, run).value)
    ensures var s := After(l, START, run).value.s;
            && Covered(l, Held(s.sent), s.toRelease.Keys)
            && forall k | k in MODIFIERS :: k in s.modifiers && (s.modifiers[k] <==> k in s.toRelease)
  {
    HarmlessKeeps(l, run, |run|);
    assert run[..|run|] == run;
    var y := After(l, START, run).value;
    hide After, AllHarmless;
    assert y.s.toRelease.Keys + Releases(y.grab) + Releases(y.drain) + Due(y.r) == y.s.toRelease.Keys;
  }

  // ---------- A send that comes too late ----------

  /** The grab thread tracks a press, the other thread releases everything, and only
      then is the press sent: at rest, the key is held and nothing knows of it. */
  function LateSend(l: Layout, k: Key): seq<Move> {
    [UserKey(Event(KeyPress(k), l.rawOf(k))), GrabGoes, GrabGoes,
     CloneTable, ClearTable, Release(k), DrainGoes, DrainGoes, DrainGoes, Done,
     GrabGoes]
  }

  /** The states it goes through. */
  function LateStates(l: Layout, k: Key): seq<Threads>
    requires CodeOf(l, k).Some?
  {
    var code, e, u := CodeOf(l, k).value, Event(KeyPress(k), l.rawOf(k)), Event(KeyRelease(k), l.rawOf(k));
    var up, down := NoneDown(), UpdateModifiers(NoneDown(), e);
    var t, drained := map[k := e], Draining(map[], None);
    var sent := [KeyEvent(false, code)];
    [START,
     Threads(State(map[], up, []), Passed(e), NoCall, Idle),
     Threads(State(map[], down, []), Marked(e), NoCall, Idle),
     Threads(State(t, down, []), Tracked(e), NoCall, Idle),
     Threads(State(t, down, []), Tracked(e), NoCall, Cloned(t)),
     Threads(State(map[], down, []), Tracked(e), NoCall, Draining(t, None)),
     Threads(State(map[], down, []), Tracked(e), Passed(u), drained),
     Threads(State(map[], up, []), Tracked(e), Marked(u), drained),
     Threads(State(map[], up, []), Tracked(e), Tracked(u), drained),
     Threads(State(map[], up, sent), Tracked(e), NoCall, drained),
     Threads(State(map[], up, sent), Tracked(e), NoCall, Idle),
     Threads(State(map[], up, sent + [KeyEvent(true, code)]), NoCall, NoCall, Idle)]
  }

  lemma PressMoves(l: Layout, k: Key, i: nat)
    requires CodeOf(l, k).Some? && !IsAlt(k) && i < 5
    ensures Moved(l, LateStates(l, k)[i], LateSend(l, k)[i]) == Some(LateStates(l, k)[i + 1])
  {
    var e := Event(KeyPress(k), l.rawOf(k));
    assert !LongPress(Keyboard.INIT, e) && Track(map[], e) == map[k := e];
    hide UpdateModifiers, Track, MapMode, NoneDown;
  }

  lemma ReleaseMoves(l: Layout, k: Key, i: nat)
    requires CodeOf(l, k).Some? && !IsAlt(k) && 5 <= i < 11
    ensures Moved(l, LateStates(l, k)[i], LateSend(l, k)[i]) == Some(LateStates(l, k)[i + 1])
  {
    var code, e, u := CodeOf(l, k).value, Event(KeyPress(k), l.rawOf(k)), Event(KeyRelease(k), l.rawOf(k));
    assert map[k := e] - {k} == map[] && Track(map[], u) == map[];
    assert UpdateModifiers(UpdateModifiers(NoneDown(), e), u) == NoneDown();
    assert MapMode(l, u) == [KeyEvent(false, code)] && MapMode(l, e) == [KeyEvent(true, code)];
    assert [] + MapMode(l, u) == MapMode(l, u);
    hide UpdateModifiers, Track, MapMode, NoneDown;
  }

  lemma LateSendHolds(l: Layout, k: Key)
    requires CodeOf(l, k).Some? && !IsAlt(k)
    ensures var done := After(l, START, LateSend(l, k));
            && done.Some? && AtRest(done.value) && done.value.s.toRelease == map[]
            && done.value.s.modifiers == NoneDown() && Held(done.value.s.sent) == {CodeOf(l, k).value}
  {
    hide Moved, After, Held;
    var code := CodeOf(l, k).value;
    assert |LateSend(l, k)| == 11 && |LateStates(l, k)| == 12;
    forall i | 0 <= i < 11
      ensures Moved(l, LateStates(l, k)[i], LateSend(l, k)[i]) == Some(LateStates(l, k)[i + 1])
    {
      if i < 5 {
        PressMoves(l, k, i);
      } else {
        ReleaseMoves(l, k, i);
      }
    }
    Chain(l, LateStates(l, k), LateSend(l, k));
    UpThenDown(code);
  }

  lemma UpThenDown(code: nat)
    ensures Held([KeyEvent(false, code)] + [KeyEvent(true, code)]) == {code}
  {
    HeldAppend([], [KeyEvent(false, code)]);
    HeldAppend([KeyEvent(false, code)], [KeyEvent(true, code)]);
    assert [] + [KeyEvent(false, code)] == [KeyEvent(false, code)];
  }

  lemma {:induction false} Chain(l: Layout, ys: seq<Threads>, run: seq<Move>)
    requires |ys| == |run| + 1 && forall i | 0 <= i < |run| :: Moved(l, ys[i], run[i]) == Some(ys[i + 1])
    ensures After(l, ys[0], run) == Some(ys[|run|])
  {
    if run != [] {
      Chain(l, ys[..|run|], run[..|run| - 1]);
    }
  }

  // ---------- A call that is not interrupted ----------

  /** The moves of one whole event. */
  function WholeEvent(s: State, e: Event): seq<Move> {
    if LongPress(s, e) then [UserKey(e)] else [UserKey(e), GrabGoes, GrabGoes, GrabGoes]
  }

  /** Uninterrupted, the locked sections and the send add up to process_event; and
      they are harmless unless the other thread is inside a call of its own. */
  lemma WholeEventProcesses(l: Layout, y: Threads, e: Event)
    requires y.grab == NoCall && Genuine(l, e)
    ensures After(l, y, WholeEvent(y.s, e)) == Some(y.(s := Process(l, y.s, e)))
    ensures NothingForgotten(l, y) && y.drain == NoCall ==> NothingForgotten(l, y.(s := Process(l, y.s, e)))
  {
    var s1 := Advance(l, y.s, Passed(e));
    var s2 := Advance(l, s1, Marked(e));
    var s3 := Advance(l, s2, Tracked(e));
    if LongPress(y.s, e) {
      Chain(l, [y, y], WholeEvent(y.s, e));
    } else {
      assert s3 == Process(l, y.s, e);
      Chain(l, [y, y.(grab := Passed(e)), y.(s := s1, grab := Marked(e)), y.(s := s2, grab := Tracked(e)), y.(s := s3)],
            WholeEvent(y.s, e));
      if NothingForgotten(l, y) && y.drain == NoCall {
        hide After;
        WholeEventKeeps(l, y.s, e, Due(y.r));
      }
    }
  }

  lemma WholeEventKeeps(l: Layout, s: State, e: Event, due: set<Key>)
    requires Sane(l, s, NoCall, NoCall, due) && Genuine(l, e) && !LongPress(s, e)
    ensures Sane(l, Process(l, s, e), NoCall, NoCall, due)
  {
    var s1 := Advance(l, s, Passed(e));
    var s2 := Advance(l, s1, Marked(e));
    EnterKeeps(l, s, NoCall, due, e, due);
    AdvanceIff(l, s, Passed(e), NoCall, due);
    assert MayAdvance(l, s1, Marked(e), NoCall, due) by { hide CodesDue, Covered; }
    AdvanceIff(l, s1, Marked(e), NoCall, due);
    assert MayAdvance(l, s2, Tracked(e), NoCall, due) by { hide Held, CodesDue; }
    AdvanceIff(l, s2, Tracked(e), NoCall, due);
    assert Advance(l, s2, Tracked(e)) == Process(l, s, e);
  }

  /** The moves that make up one step of a release, if nothing comes in between. */
  function WholeStep(y: Threads, step: Step): seq<Move> {
    match step
    case Clone => [CloneTable]
    case Clear => [ClearTable]
    case Next(k) => [Release(k), DrainGoes, DrainGoes, DrainGoes]
    case StrokeNext => if StrokeFiltered(y) then [StrokeGoes] else [StrokeGoes, DrainGoes, DrainGoes, DrainGoes]
    case _ => [Done]
  }

  predicate StrokeFiltered(y: Threads) {
    && y.r.Draining? && y.r.stroke.Some? && !y.r.stroke.value.pressed
    && LongPress(y.s, Event(KeyPress(y.r.stroke.value.key), y.r.stroke.value.raw))
  }

  /** Uninterrupted, the moves of the releasing thread add up to the steps of the
      release with whole events. */
  lemma WholeStepApplies(l: Layout, y: Threads, step: Step)
    requires y.drain == NoCall && !step.User? && Apply(l, System(y.s, y.r), step).Some?
    ensures var n := Apply(l, System(y.s, y.r), step).value;
            After(l, y, WholeStep(y, step)) == Some(y.(s := n.s, r := n.r))
  {
    var n := Apply(l, System(y.s, y.r), step).value;
    match step {
      case Next(k) =>
        DrainThrough(l, y, Release(k), Event(KeyRelease(k), y.r.pending[k].raw), n.r);
      case StrokeNext =>
        var Stroke(k, raw, pressed) := y.r.stroke.value;
        if StrokeFiltered(y) {
          Chain(l, [y, y.(r := n.r)], [StrokeGoes]);
        } else {
          DrainThrough(l, y, StrokeGoes, Event(if pressed then KeyRelease(k) else KeyPress(k), raw), n.r);
        }
      case Clone => Chain(l, [y, y.(r := n.r)], [CloneTable]);
      case Clear => Chain(l, [y, y.(s := n.s, r := n.r)], [ClearTable]);
      case Finish => Chain(l, [y, y.(r := n.r)], [Done]);
      case _ =>
    }
  }

  lemma DrainThrough(l: Layout, y: Threads, m: Move, e: Event, r: Releasing)
    requires y.drain == NoCall && !LongPress(y.s, e) && Moved(l, y, m) == Some(y.(drain := Passed(e), r := r))
    ensures After(l, y, [m, DrainGoes, DrainGoes, DrainGoes]) == Some(y.(s := Process(l, y.s, e), r := r))
  {
    var s1 := Advance(l, y.s, Passed(e));
    var s2 := Advance(l, s1, Marked(e));
    var s3 := Advance(l, s2, Tracked(e));
    assert s3 == Process(l, y.s, e);
    var z := y.(r := r);
    Chain(l, [y, z.(drain := Passed(e)), z.(s := s1, drain := Marked(e)), z.(s := s2, drain := Tracked(e)), z.(s := s3)],
          [m, DrainGoes, DrainGoes, DrainGoes]);
  }

  /** The order within a call: the filter reads the marks; then the marks, the table and
      the peer change one after the other. */
  lemma CallWrittenOut(l: Layout, y: Threads, e: Event)
    requires y.grab == NoCall && Genuine(l, e) && e.kind != NotAKey
    ensures var k, m := e.kind.key, y.s.modifiers;
            var marked := if k in m then m[k := e.kind.KeyPress?] else m;
            var table := if e.kind.KeyPress? then y.s.toRelease[k := e] else y.s.toRelease - {k};
            var sent := y.s.sent + Strokes(e.kind.KeyPress?, l.translate(l.rawOf(k)));
            if e.kind.KeyPress? && k in m && m[k] then Moved(l, y, UserKey(e)) == Some(y)
            else
              && After(l, y, [UserKey(e)]) == Some(y.(grab := Passed(e)))
              && After(l, y, [UserKey(e), GrabGoes]) == Some(y.(s := State(y.s.toRelease, marked, y.s.sent), grab := Marked(e)))
              && After(l, y, [UserKey(e), GrabGoes, GrabGoes]) == Some(y.(s := State(table, marked, y.s.sent), grab := Tracked(e)))
              && After(l, y, [UserKey(e), GrabGoes, GrabGoes, GrabGoes]) == Some(y.(s := State(table, marked, sent)))
  {
    if !LongPress(y.s, e) {
      var s1 := Advance(l, y.s, Passed(e));
      var s2 := Advance(l, s1, Marked(e));
      var s3 := Advance(l, s2, Tracked(e));
      var y1, y2, y3, y4 :=
        y.(grab := Passed(e)), y.(s := s1, grab := Marked(e)), y.(s := s2, grab := Tracked(e)), y.(s := s3);
      Chain(l, [y, y1], [UserKey(e)]);
      Chain(l, [y, y1, y2], [UserKey(e), GrabGoes]);
      Chain(l, [y, y1, y2, y3], [UserKey(e), GrabGoes, GrabGoes]);
      Chain(l, [y, y1, y2, y3, y4], [UserKey(e), GrabGoes, GrabGoes, GrabGoes]);
      hide After;
    }
  }

  // ---------- Mutual exclusion is enough ----------

  /** The move does not cut into a call of the other thread, and a clear forgets no key. */
  predicate Excludes(y: Threads, m: Move) {
    match m
    case UserKey(_) => y.drain == NoCall
    case GrabGoes => y.drain == NoCall
    case ClearTable => y.grab == NoCall && (y.r.Cloned? ==> y.s.toRelease.Keys <= y.r.snapshot.Keys)
    case CloneTable => true
    case Done => true
    case _ => y.grab == NoCall
  }

  ghost predicate Exclusive(l: Layout, run: seq<Move>) {
    forall n: nat | n < |run| :: After(l, START, run[..n]).Some? && Excludes(After(l, START, run[..n]).value, run[n])
  }

  /** What the call has done so far is still in the tables. */
  predicate InEffect(s: State, c: Call) {
    match c
    case Marked(Event(KeyPress(k), _)) => k in s.modifiers ==> s.modifiers[k]
    case Marked(Event(KeyRelease(k), _)) => k in s.modifiers ==> !s.modifiers[k]
    case Tracked(Event(KeyPress(k), _)) => k in s.toRelease
    case _ => true
  }

  predicate OneCall(y: Threads) {
    (y.grab == NoCall || y.drain == NoCall) && InEffect(y.s, y.grab) && InEffect(y.s, y.drain)
  }

  lemma ExclusiveMove(l: Layout, y: Threads, m: Move)
    requires OneCall(y) && Excludes(y, m) && Moved(l, y, m).Some? && Raws(l, y) && y.s.modifiers.Keys == MODIFIERS
    ensures OneCall(Moved(l, y, m).value) && Harmless(l, y, m)
  {
    hide MapMode, Held;
  }

  lemma StartsAlone()
    ensures OneCall(START)
  {
  }

  lemma {:induction false} ExclusiveRun(l: Layout, run: seq<Move>, n: nat)
    requires After(l, START, run).Some? && Exclusive(l, run) && n <= |run|
    ensures After(l, START, run[..n]).Some? && OneCall(After(l, START, run[..n]).value)
  {
    hide Moved, OneCall, Excludes, Raws;
    PrefixRuns(l, run, n);
    if n == 0 {
      StartsAlone();
    } else {
      ExclusiveRun(l, run, n - 1);
      RunKeepsRaws(l, run[..n - 1]);
      assert run[..n][..n - 1] == run[..n - 1];
      ExclusiveMove(l, After(l, START, run[..n - 1]).value, run[n - 1]);
    }
  }

  /** If the two threads never cut into each other's calls, and every clear finds
      only keys of its clone, then every move is harmless. */
  lemma ExclusionIsEnough(l: Layout, run: seq<Move>)
    requires After(l, START, run).Some? && Exclusive(l, run)
    ensures AllHarmless(l, run) && NeverForgets(l, run)
  {
    hide Moved, OneCall, Excludes, Harmless, NothingForgotten, Raws;
    forall n: nat | n < |run|
      ensures After(l, START, run[..n]).Some? && After(l, START, run[..n]).value.s.modifiers.Keys == MODIFIERS
      ensures Harmless(l, After(l, START, run[..n]).value, run[n])
    {
      ExclusiveRun(l, run, n);
      RunKeepsRaws(l, run[..n]);
      PrefixRuns(l, run, n + 1);
      assert run[..n + 1][..n] == run[..n];
      ExclusiveMove(l, After(l, START, run[..n]).value, run[n]);
    }
    NeverForgetsIff(l, run);
  }
}
