/** Key tracking of libs/rustdesk/src/keyboard.rs in map mode for one peer: the
    tables TO_RELEASE and MODIFIERS_STATE, the events sent, and the release of
    all keys when the window loses the grab. */
module Keyboard {
  import opened Basics

  datatype Key =
    | ShiftLeft | ShiftRight | ControlLeft | ControlRight | Alt | AltGr | MetaLeft | MetaRight
    | OtherKey(id: nat)

  const MODIFIERS: set<Key> := {ShiftLeft, ShiftRight, ControlLeft, ControlRight, Alt, AltGr, MetaLeft, MetaRight}

  datatype EventType = KeyPress(key: Key) | KeyRelease(key: Key) | NotAKey

  /** A captured event: its kind and the raw position code it carries. */
  datatype Event = Event(kind: EventType, raw: nat)

  /** What is sent to the peer. */
  datatype KeyEvent = KeyEvent(down: bool, code: nat)

  /** The local raw code of each key and the partial code table towards the peer. */
  datatype Layout = Layout(rawOf: Key -> nat, translate: nat -> Option<nat>)

  function CodeOf(l: Layout, k: Key): Option<nat> { l.translate(l.rawOf(k)) }

  /** The event carries the raw code of its own key. */
  predicate Genuine(l: Layout, e: Event) { e.kind != NotAKey ==> e.raw == l.rawOf(e.kind.key) }

  datatype State = State(toRelease: map<Key, Event>, modifiers: map<Key, bool>, sent: seq<KeyEvent>)

  function NoneDown(): map<Key, bool> { map k | k in MODIFIERS :: false }

  const INIT := State(map[], NoneDown(), [])

  // ---------- process_event ----------

  predicate LongPress(s: State, e: Event) {
    e.kind.KeyPress? && e.kind.key in s.modifiers && s.modifiers[e.kind.key]
  }

  function UpdateModifiers(m: map<Key, bool>, e: Event): map<Key, bool> {
    match e.kind
    case KeyPress(k) => if k in m then m[k := true] else m
    case KeyRelease(k) => if k in m then m[k := false] else m
    case NotAKey => m
  }

  function Track(t: map<Key, Event>, e: Event): map<Key, Event> {
    match e.kind
    case KeyPress(k) => t[k := e]
    case KeyRelease(k) => t - {k}
    case NotAKey => t
  }

  /** _map_keyboard_mode. */
  function MapMode(l: Layout, e: Event): seq<KeyEvent> {
    if e.kind == NotAKey then []
    else
      match l.translate(e.raw)
      case Some(code) => [KeyEvent(e.kind.KeyPress?, code)]
      case None => []
  }

  function Process(l: Layout, s: State, e: Event): State {
    if LongPress(s, e) then s
    else State(Track(s.toRelease, e), UpdateModifiers(s.modifiers, e), s.sent + MapMode(l, e))
  }

  /** Codes the peer holds down after a list of key events. */
  function Held(sent: seq<KeyEvent>): set<nat> {
    if sent == [] then {}
    else
      var held, last := Held(sent[..|sent| - 1]), sent[|sent| - 1];
      if last.down then held + {last.code} else held - {last.code}
  }

  lemma HeldAppend(sent: seq<KeyEvent>, more: seq<KeyEvent>)
    requires |more| <= 1
    ensures Held(sent + more) ==
            if more == [] then Held(sent)
            else if more[0].down then Held(sent) + {more[0].code} else Held(sent) - {more[0].code}
  {
    if more == [] {
      assert sent + more == sent;
    } else {
      assert (sent + more)[..|sent|] == sent;
    }
  }

  // ---------- release_remote_keys as steps ----------

  /** The extra stroke for Alt and AltGr, before and after its press. */
  datatype Stroke = Stroke(key: Key, raw: nat, pressed: bool)

  /** Where release_remote_keys is: the table is cloned and then cleared under two
      separate locks. Here a whole event may be processed between any two of its
      steps; KeyboardRaces splits the events as well. */
  datatype Releasing =
    | Idle
    | Cloned(snapshot: map<Key, Event>)
    | Draining(pending: map<Key, Event>, stroke: Option<Stroke>)

  datatype System = System(s: State, r: Releasing)

  datatype Step = User(event: Event) | Clone | Clear | Next(key: Key) | StrokeNext | Finish

  predicate IsAlt(k: Key) { k == Alt || k == AltGr }

  function Apply(l: Layout, y: System, step: Step): Option<System> {
    match step
    case User(e) => if Genuine(l, e) then Some(y.(s := Process(l, y.s, e))) else None
    case Clone => if y.r == Idle then Some(y.(r := Cloned(y.s.toRelease))) else None
    case Clear =>
      if y.r.Cloned? then Some(System(y.s.(toRelease := map[]), Draining(y.r.snapshot, None))) else None
    case Next(k) =>
      if y.r.Draining? && y.r.stroke.None? && k in y.r.pending then
        var raw := y.r.pending[k].raw;
        Some(System(Process(l, y.s, Event(KeyRelease(k), raw)),
                    Draining(y.r.pending - {k}, if IsAlt(k) then Some(Stroke(k, raw, false)) else None)))
      else None
    case StrokeNext =>
      if y.r.Draining? && y.r.stroke.Some? then
        var Stroke(k, raw, pressed) := y.r.stroke.value;
        Some(System(Process(l, y.s, Event(if pressed then KeyRelease(k) else KeyPress(k), raw)),
                    Draining(y.r.pending, if pressed then None else Some(Stroke(k, raw, true)))))
      else None
    case Finish =>
      if y.r == Draining(map[], None) then Some(y.(r := Idle)) else None
  }

  function Exec(l: Layout, run: seq<Step>): Option<System> {
    if run == [] then Some(System(INIT, Idle))
    else
      match Exec(l, run[..|run| - 1])
      case None => None
      case Some(y) => Apply(l, y, run[|run| - 1])
  }

  // ---------- Invariant ----------

  predicate Covered(l: Layout, held: set<nat>, keys: set<Key>) {
    forall c | c in held :: exists k | k in keys :: CodeOf(l, k) == Some(c)
  }

  /** Keys that the tables or the drain in progress will still release. */
  function Accounted(y: System): set<Key> {
    if y.r.Draining? then y.s.toRelease.Keys + y.r.pending.Keys else y.s.toRelease.Keys
  }

  predicate RawKept(l: Layout, t: map<Key, Event>) { forall k | k in t :: t[k].raw == l.rawOf(k) }

  /** Nothing is held that will not be released; a modifier is marked down exactly
      when it is tracked, except that a key waiting in the drain may be marked. */
  predicate Inv(l: Layout, y: System) {
    && Covered(l, Held(y.s.sent), Accounted(y))
    && y.s.modifiers.Keys == MODIFIERS
    && (forall k | k in MODIFIERS && k in y.s.toRelease :: y.s.modifiers[k])
    && (forall k | k in MODIFIERS && y.s.modifiers[k] :: k in Accounted(y))
    && RawKept(l, y.s.toRelease)
    && (y.r.Cloned? ==> RawKept(l, y.r.snapshot))
    && (y.r.Draining? ==> RawKept(l, y.r.pending) && (y.r.stroke.Some? ==> y.r.stroke.value.raw == l.rawOf(y.r.stroke.value.key)))
  }

  /** No key went down between the clone and the clear. */
  predicate SnapshotComplete(y: System) { y.r.Cloned? ==> y.s.toRelease.Keys <= y.r.snapshot.Keys }

  /** One processed event keeps coverage by any set of other keys. */
  lemma ProcessCovers(l: Layout, s: State, e: Event, extra: set<Key>)
    requires Genuine(l, e) && Covered(l, Held(s.sent), s.toRelease.Keys + extra)
    ensures var n := Process(l, s, e);
            var gone := if e.kind.KeyRelease? then extra - {e.kind.key} else extra;
            Covered(l, Held(n.sent), n.toRelease.Keys + gone)
  {
    var n := Process(l, s, e);
    var gone := if e.kind.KeyRelease? then extra - {e.kind.key} else extra;
    if !LongPress(s, e) {
      HeldAppend(s.sent, MapMode(l, e));
      forall c | c in Held(n.sent)
        ensures exists k | k in n.toRelease.Keys + gone :: CodeOf(l, k) == Some(c)
      {
        if e.kind.KeyPress? && CodeOf(l, e.kind.key) == Some(c) {
          assert e.kind.key in n.toRelease.Keys + gone;
        } else {
          assert c in Held(s.sent);
          var k :| k in s.toRelease.Keys + extra && CodeOf(l, k) == Some(c);
          assert k in n.toRelease.Keys + gone;
        }
      }
    }
  }

  /** A step keeps the invariant, unless it is a clear that forgets a key pressed since the clone. */
  lemma StepKeepsInv(l: Layout, y: System, step: Step)
    requires Inv(l, y) && Apply(l, y, step).Some?
    requires step.Clear? ==> SnapshotComplete(y)
    ensures Inv(l, Apply(l, y, step).value)
  {
    var n := Apply(l, y, step).value;
    var extra := if y.r.Draining? then y.r.pending.Keys else {};
    match step {
      case User(e) =>
        ProcessCovers(l, y.s, e, extra);
        ProcessTables(l, y.s, e, extra);
        assert Covered(l, Held(n.s.sent), Accounted(n));
      case Clone =>
      case Clear =>
        assert Covered(l, Held(n.s.sent), Accounted(n));
      case Next(k) =>
        var e := Event(KeyRelease(k), y.r.pending[k].raw);
        ProcessCovers(l, y.s, e, extra);
        ProcessTables(l, y.s, e, extra);
        assert extra - {k} == (y.r.pending - {k}).Keys;
      case StrokeNext =>
        var Stroke(k, raw, pressed) := y.r.stroke.value;
        var e := Event(if pressed then KeyRelease(k) else KeyPress(k), raw);
        ProcessCovers(l, y.s, e, extra);
        ProcessTables(l, y.s, e, extra);
        assert Covered(l, Held(n.s.sent), Accounted(n));
      case Finish =>
        assert Accounted(n) == Accounted(y);
    }
  }

  /** The same for the two tables. */
  lemma ProcessTables(l: Layout, s: State, e: Event, extra: set<Key>)
    requires Genuine(l, e) && s.modifiers.Keys == MODIFIERS && RawKept(l, s.toRelease)
    requires forall k | k in MODIFIERS && k in s.toRelease :: s.modifiers[k]
    requires forall k | k in MODIFIERS && s.modifiers[k] :: k in s.toRelease.Keys + extra
    ensures var n := Process(l, s, e);
            var gone := if e.kind.KeyRelease? then extra - {e.kind.key} else extra;
            && n.modifiers.Keys == MODIFIERS && RawKept(l, n.toRelease)
            && (forall k | k in MODIFIERS && k in n.toRelease :: n.modifiers[k])
            && (forall k | k in MODIFIERS && n.modifiers[k] :: k in n.toRelease.Keys + gone)
  {
  }

  /** No clear in the run forgets a key pressed since its clone. */
  predicate NoRace(l: Layout, run: seq<Step>) {
    forall i | 0 <= i < |run| && run[i] == Clear ::
      Exec(l, run[..i]).Some? && SnapshotComplete(Exec(l, run[..i]).value)
  }

  lemma NoRacePrefix(l: Layout, run: seq<Step>, n: nat)
    requires NoRace(l, run) && n <= |run|
    ensures NoRace(l, run[..n])
  {
    forall i | 0 <= i < n && run[..n][i] == Clear
      ensures Exec(l, run[..n][..i]).Some? && SnapshotComplete(Exec(l, run[..n][..i]).value)
    {
      assert run[..n][..i] == run[..i] && run[i] == Clear;
    }
  }

  lemma InitInv(l: Layout)
    ensures Inv(l, System(INIT, Idle))
  {
  }

  lemma {:induction false} RunKeepsInv(l: Layout, run: seq<Step>)
    requires Exec(l, run).Some? && NoRace(l, run)
    ensures Inv(l, Exec(l, run).value)
  {
    if run == [] {
      InitInv(l);
    } else {
      var n := |run| - 1;
      NoRacePrefix(l, run, n);
      RunKeepsInv(l, run[..n]);
      assert run[n] == Clear ==> SnapshotComplete(Exec(l, run[..n]).value);
      StepKeepsInv(l, Exec(l, run[..n]).value, run[n]);
    }
  }

  /** In every run, with whole events between the steps of releases: outside a
      release, every code the peer holds is that of a key in TO_RELEASE, and a
      modifier is marked down exactly when it is in TO_RELEASE. */
  lemma TablesAgree(l: Layout, run: seq<Step>)
    requires Exec(l, run).Some? && NoRace(l, run) && Exec(l, run).value.r == Idle
    ensures var s := Exec(l, run).value.s;
            && Covered(l, Held(s.sent), s.toRelease.Keys)
            && forall k | k in MODIFIERS :: k in s.modifiers && (s.modifiers[k] <==> k in s.toRelease)
  {
    RunKeepsInv(l, run);
  }

  // ---------- A release that is not interleaved leaves nothing down ----------

  predicate ReleaseSteps(steps: seq<Step>) { forall x | x in steps :: !x.User? }

  /** During a release without events only the extra stroke's key is tracked. */
  predicate OnlyStroke(y: System) {
    match y.r
    case Draining(_, Some(stroke)) => y.s.toRelease.Keys <= if stroke.pressed then {stroke.key} else {}
    case Draining(_, None) => y.s.toRelease == map[]
    case _ => true
  }

  lemma ReleaseStepTracks(l: Layout, y: System, step: Step)
    requires OnlyStroke(y) && !step.User? && Apply(l, y, step).Some?
    ensures OnlyStroke(Apply(l, y, step).value) && (SnapshotComplete(y) ==> SnapshotComplete(Apply(l, y, step).value))
    ensures Apply(l, y, step).value.r == Idle ==> Apply(l, y, step).value.s.toRelease == map[]
  {
  }

  /** Running steps from a given state. */
  function ExecFrom(l: Layout, y: System, steps: seq<Step>): Option<System> {
    if steps == [] then Some(y)
    else
      match ExecFrom(l, y, steps[..|steps| - 1])
      case None => None
      case Some(z) => Apply(l, z, steps[|steps| - 1])
  }

  lemma ExecFromSnoc(l: Layout, y: System, steps: seq<Step>, step: Step)
    requires ExecFrom(l, y, steps).Some?
    ensures ExecFrom(l, y, steps + [step]) == Apply(l, ExecFrom(l, y, steps).value, step)
  {
    assert (steps + [step])[..|steps|] == steps;
  }

  lemma {:induction false} ReleaseTracks(l: Layout, y: System, steps: seq<Step>)
    requires Inv(l, y) && OnlyStroke(y) && SnapshotComplete(y)
    requires ReleaseSteps(steps) && ExecFrom(l, y, steps).Some?
    ensures var z := ExecFrom(l, y, steps).value;
            && Inv(l, z) && OnlyStroke(z) && SnapshotComplete(z)
            && (z.r == Idle && steps != [] ==> z.s.toRelease == map[])
  {
    hide Inv, Apply, OnlyStroke, SnapshotComplete;
    if steps != [] {
      var n := |steps| - 1;
      var z, step := ExecFrom(l, y, steps[..n]).value, steps[n];
      assert steps[n] in steps && forall x | x in steps[..n] :: x in steps;
      ReleaseTracks(l, y, steps[..n]);
      ReleaseStepTracks(l, z, step);
      StepKeepsInv(l, z, step);
    }
  }

  /** After release_remote_keys, in whatever order the table is iterated and with
      the extra strokes for Alt and AltGr, the peer holds nothing, nothing is
      tracked, and no modifier is marked. */
  lemma ReleaseLeavesNothing(l: Layout, y: System, steps: seq<Step>)
    requires Inv(l, y) && y.r == Idle && steps != [] && ReleaseSteps(steps)
    requires ExecFrom(l, y, steps).Some? && ExecFrom(l, y, steps).value.r == Idle
    ensures AllUp(ExecFrom(l, y, steps).value.s)
  {
    ReleaseTracks(l, y, steps);
    NothingTracked(l, ExecFrom(l, y, steps).value);
  }

  /** The peer holds nothing, nothing is tracked, no modifier is marked. */
  predicate AllUp(s: State) { Held(s.sent) == {} && s.toRelease == map[] && s.modifiers == NoneDown() }

  lemma NothingTracked(l: Layout, y: System)
    requires Inv(l, y) && y.r == Idle && y.s.toRelease == map[]
    ensures AllUp(y.s)
  {
    assert Accounted(y) == {};
    assert forall c :: c !in Held(y.s.sent);
  }

  // ---------- The race between clone and clear ----------

  /** A press that takes effect and that the pending clone does not know about. */
  predicate Forgotten(l: Layout, y: System, e: Event)
    requires y.r.Cloned?
  {
    && e.kind.KeyPress? && e.kind.key !in y.s.toRelease
    && ( || e.kind.key in MODIFIERS
         || (CodeOf(l, e.kind.key).Some? && !Covered(l, {CodeOf(l, e.kind.key).value}, y.s.toRelease.Keys)))
  }

  /** One event between the clone and the clear, then the rest of the release in
      any order: everything is up at the end if and only if the event is not a
      press the clone misses. Otherwise the key stays down at the peer, or stays
      marked and is from then on filtered as a long press. */
  lemma EventDuringReleaseIff(l: Layout, y: System, e: Event, rest: seq<Step>)
    requires Inv(l, y) && y.r == Idle && Genuine(l, e) && rest != [] && ReleaseSteps(rest)
    ensures ExecFrom(l, y, [Clone, User(e), Clear]) == Some(ClearedAfter(l, y, e))
    ensures var done := ExecFrom(l, ClearedAfter(l, y, e), rest);
            done.Some? && done.value.r == Idle ==>
              (AllUp(done.value.s) <==> !Forgotten(l, y.(r := Cloned(y.s.toRelease)), e))
  {
    ClearAfterEvent(l, y, e);
    hide Inv, ExecFrom, Process, Apply;
    var done := ExecFrom(l, ClearedAfter(l, y, e), rest);
    if done.Some? && done.value.r == Idle {
      if Forgotten(l, y.(r := Cloned(y.s.toRelease)), e) {
        ForgottenIsStuck(l, y, e);
        StaysStuck(l, ClearedAfter(l, y, e), rest, y.s.toRelease.Keys, e.kind.key);
      } else {
        RememberedKeeps(l, y, e);
        ReleaseTracks(l, ClearedAfter(l, y, e), rest);
        NothingTracked(l, done.value);
      }
    }
  }

  lemma ClearAfterEvent(l: Layout, y: System, e: Event)
    requires y.r == Idle && Genuine(l, e)
    ensures ExecFrom(l, y, [Clone, User(e), Clear]) == Some(ClearedAfter(l, y, e))
  {
    ExecFromSnoc(l, y, [], Clone);
    ExecFromSnoc(l, y, [Clone], User(e));
    ExecFromSnoc(l, y, [Clone, User(e)], Clear);
    assert [] + [Clone] == [Clone] && [Clone] + [User(e)] == [Clone, User(e)];
    assert [Clone, User(e)] + [Clear] == [Clone, User(e), Clear];
  }

  /** The run in full for a table that is empty: the key ends held and untracked. */
  lemma PressForgotten(l: Layout, k: Key)
    requires CodeOf(l, k).Some?
    ensures var e := Event(KeyPress(k), l.rawOf(k));
            var done := Exec(l, [Clone, User(e), Clear, Finish]);
            && done.Some? && done.value.r == Idle && done.value.s.toRelease == map[]
            && Held(done.value.s.sent) == {CodeOf(l, k).value}
  {
    hide Exec, ExecFrom, Held;
    var e := Event(KeyPress(k), l.rawOf(k));
    var y := System(INIT, Idle);
    var cleared := ClearedAfter(l, y, e);
    ClearAfterEvent(l, y, e);
    ExecFromSnoc(l, y, [Clone, User(e), Clear], Finish);
    ExecFromInit(l, [Clone, User(e), Clear, Finish]);
    assert [Clone, User(e), Clear] + [Finish] == [Clone, User(e), Clear, Finish];
    assert !LongPress(INIT, e) && cleared.s.sent == [KeyEvent(true, CodeOf(l, k).value)];
    HeldOne(CodeOf(l, k).value);
  }

  lemma HeldOne(code: nat)
    ensures Held([KeyEvent(true, code)]) == {code}
  {
    HeldAppend([], [KeyEvent(true, code)]);
    assert [] + [KeyEvent(true, code)] == [KeyEvent(true, code)];
  }

  lemma {:induction false} ExecFromInit(l: Layout, run: seq<Step>)
    ensures ExecFrom(l, System(INIT, Idle), run) == Exec(l, run)
  {
    if run != [] {
      ExecFromInit(l, run[..|run| - 1]);
    }
  }

  /** The system when the clear comes right after event e, which came right after the clone. */
  function ClearedAfter(l: Layout, y: System, e: Event): System {
    System(Process(l, y.s, e).(toRelease := map[]), Draining(y.s.toRelease, None))
  }

  /** The release touches only keys of the set, and j is none of them: j is a
      marked modifier, or holds a code that none of them has. */
  predicate Stuck(l: Layout, y: System, keys: set<Key>, j: Key) {
    && RawKept(l, y.s.toRelease) && y.s.toRelease.Keys <= keys
    && (y.r.Cloned? ==> RawKept(l, y.r.snapshot) && y.r.snapshot.Keys <= keys)
    && (y.r.Draining? ==> RawKept(l, y.r.pending) && y.r.pending.Keys <= keys)
    && (y.r.Draining? && y.r.stroke.Some? ==>
          y.r.stroke.value.key in keys && y.r.stroke.value.raw == l.rawOf(y.r.stroke.value.key))
    && j !in keys
    && ((j in y.s.modifiers && y.s.modifiers[j]) || HeldApart(l, y.s, keys, j))
  }

  predicate HeldApart(l: Layout, s: State, keys: set<Key>, j: Key) {
    && CodeOf(l, j).Some? && CodeOf(l, j).value in Held(s.sent)
    && !Covered(l, {CodeOf(l, j).value}, keys)
  }

  lemma ForgottenIsStuck(l: Layout, y: System, e: Event)
    requires Inv(l, y) && y.r == Idle && Genuine(l, e) && Forgotten(l, y.(r := Cloned(y.s.toRelease)), e)
    ensures Stuck(l, ClearedAfter(l, y, e), y.s.toRelease.Keys, e.kind.key)
  {
    assert !LongPress(y.s, e);
    HeldAppend(y.s.sent, MapMode(l, e));
  }

  lemma StepStaysStuck(l: Layout, y: System, step: Step, keys: set<Key>, j: Key)
    requires Stuck(l, y, keys, j) && !step.User? && Apply(l, y, step).Some?
    ensures Stuck(l, Apply(l, y, step).value, keys, j)
  {
    if step.Next? {
      OthersStayStuck(l, y.s, Event(KeyRelease(step.key), y.r.pending[step.key].raw), keys, j);
    } else if step.StrokeNext? {
      var Stroke(k, raw, pressed) := y.r.stroke.value;
      OthersStayStuck(l, y.s, Event(if pressed then KeyRelease(k) else KeyPress(k), raw), keys, j);
    }
  }

  lemma OthersStayStuck(l: Layout, s: State, e: Event, keys: set<Key>, j: Key)
    requires Genuine(l, e) && e.kind != NotAKey && e.kind.key in keys && j !in keys
    ensures var n := Process(l, s, e);
            && (j in s.modifiers && s.modifiers[j] ==> j in n.modifiers && n.modifiers[j])
            && (HeldApart(l, s, keys, j) ==> HeldApart(l, n, keys, j))
  {
    HeldAppend(s.sent, MapMode(l, e));
  }

  lemma {:induction false} StaysStuck(l: Layout, y: System, steps: seq<Step>, keys: set<Key>, j: Key)
    requires Stuck(l, y, keys, j) && ReleaseSteps(steps) && ExecFrom(l, y, steps).Some?
    ensures Stuck(l, ExecFrom(l, y, steps).value, keys, j) && !AllUp(ExecFrom(l, y, steps).value.s)
  {
    hide Stuck, Apply;
    if steps != [] {
      var n := |steps| - 1;
      assert steps[n] in steps && forall x | x in steps[..n] :: x in steps;
      StaysStuck(l, y, steps[..n], keys, j);
      StepStaysStuck(l, ExecFrom(l, y, steps[..n]).value, steps[n], keys, j);
    }
    StuckIsDown(l, ExecFrom(l, y, steps).value, keys, j);
  }

  lemma StuckIsDown(l: Layout, y: System, keys: set<Key>, j: Key)
    requires Stuck(l, y, keys, j)
    ensures !AllUp(y.s)
  {
  }

  lemma RememberedKeeps(l: Layout, y: System, e: Event)
    requires Inv(l, y) && y.r == Idle && Genuine(l, e) && !Forgotten(l, y.(r := Cloned(y.s.toRelease)), e)
    ensures Inv(l, ClearedAfter(l, y, e))
  {
    var done := ClearedAfter(l, y, e);
    assert Accounted(done) == y.s.toRelease.Keys == Accounted(y);
    HeldAppend(y.s.sent, MapMode(l, e));
    forall c | c in Held(done.s.sent)
      ensures exists k | k in Accounted(done) :: CodeOf(l, k) == Some(c)
    {
      if c !in Held(y.s.sent) {
        assert e.kind.KeyPress? && CodeOf(l, e.kind.key) == Some(c);
        assert e.kind.key in Accounted(done) || Covered(l, {c}, y.s.toRelease.Keys);
        assert c in {c};
      }
    }
    assert Covered(l, Held(done.s.sent), Accounted(done));
    hide Covered, Held;
    RememberedMarks(l, y, e);
  }

  lemma RememberedMarks(l: Layout, y: System, e: Event)
    requires Inv(l, y) && y.r == Idle && !Forgotten(l, y.(r := Cloned(y.s.toRelease)), e)
    ensures var m := Process(l, y.s, e).modifiers;
            m.Keys == MODIFIERS && forall k | k in MODIFIERS && m[k] :: k in y.s.toRelease
  {
    hide Covered, Held;
  }

  // ---------- Exactly which codes are held ----------

  predicate AllUser(l: Layout, run: seq<Step>) { forall x | x in run :: x.User? && Genuine(l, x.event) }

  /** The peer holds the code of every tracked key that has one. */
  predicate HoldsAll(l: Layout, s: State) {
    forall k | k in s.toRelease && CodeOf(l, k).Some? :: CodeOf(l, k).value in Held(s.sent)
  }

  ghost predicate NoSharedCodes(l: Layout) {
    forall j, k | j != k && CodeOf(l, j).Some? :: CodeOf(l, j) != CodeOf(l, k)
  }

  lemma {:induction false} TrackedAreHeld(l: Layout, run: seq<Step>)
    requires NoSharedCodes(l) && AllUser(l, run)
    ensures Exec(l, run).Some? && HoldsAll(l, Exec(l, run).value.s)
  {
    if run != [] {
      var n := |run| - 1;
      assert run[n] in run && forall x | x in run[..n] :: x in run;
      TrackedAreHeld(l, run[..n]);
      hide NoSharedCodes, HoldsAll, Process;
      EventHoldsAll(l, Exec(l, run[..n]).value.s, run[n].event);
    }
  }

  lemma EventHoldsAll(l: Layout, s: State, e: Event)
    requires NoSharedCodes(l) && HoldsAll(l, s) && Genuine(l, e)
    ensures HoldsAll(l, Process(l, s, e))
  {
    HeldAppend(s.sent, MapMode(l, e));
    forall k | k in Process(l, s, e).toRelease && CodeOf(l, k).Some?
      ensures CodeOf(l, k).value in Held(Process(l, s, e).sent)
    {
      assert e.kind != NotAKey && k != e.kind.key ==> CodeOf(l, k) != CodeOf(l, e.kind.key);
    }
  }

  /** Two keys with one code: releasing the first releases the second at the peer. */
  lemma SharedCodeDrops(l: Layout, j: Key, k: Key) returns (run: seq<Step>)
    requires j != k && CodeOf(l, j).Some? && CodeOf(l, j) == CodeOf(l, k)
    ensures AllUser(l, run) && Exec(l, run).Some? && !HoldsAll(l, Exec(l, run).value.s)
  {
    var a, b, c := Event(KeyPress(j), l.rawOf(j)), Event(KeyPress(k), l.rawOf(k)), Event(KeyRelease(j), l.rawOf(j));
    run := [User(a), User(b), User(c)];
    var s1 := Process(l, INIT, a);
    var s2 := Process(l, s1, b);
    var s3 := Process(l, s2, c);
    ExecThree(l, a, b, c);
    hide Exec, Process;
    FirstPress(l, INIT, j);
    FirstPress(l, s1, k);
    OtherReleased(l, s2, j, k);
    ReleaseFrees(l, s2, j);
  }

  /** A press of a key that is not marked is tracked and marks no other key. */
  lemma FirstPress(l: Layout, s: State, k: Key)
    requires k in s.modifiers ==> !s.modifiers[k]
    ensures var n := Process(l, s, Event(KeyPress(k), l.rawOf(k)));
            k in n.toRelease && forall i | i in n.modifiers && i != k :: i in s.modifiers && n.modifiers[i] == s.modifiers[i]
  {
    hide MapMode;
  }

  lemma OtherReleased(l: Layout, s: State, j: Key, k: Key)
    requires j != k && k in s.toRelease
    ensures k in Process(l, s, Event(KeyRelease(j), l.rawOf(j))).toRelease
  {
    hide MapMode;
  }

  lemma ReleaseFrees(l: Layout, s: State, j: Key)
    requires CodeOf(l, j).Some?
    ensures CodeOf(l, j).value !in Held(Process(l, s, Event(KeyRelease(j), l.rawOf(j))).sent)
  {
    HeldAppend(s.sent, MapMode(l, Event(KeyRelease(j), l.rawOf(j))));
  }

  lemma ExecThree(l: Layout, a: Event, b: Event, c: Event)
    requires Genuine(l, a) && Genuine(l, b) && Genuine(l, c)
    ensures Exec(l, [User(a), User(b), User(c)]) ==
            Some(System(Process(l, Process(l, Process(l, INIT, a), b), c), Idle))
  {
    hide Process;
    var run := [User(a), User(b), User(c)];
    assert run[..2] == [User(a), User(b)] && [User(a), User(b)][..1] == [User(a)] && [User(a)][..0] == [];
    assert Exec(l, [User(a)]) == Some(System(Process(l, INIT, a), Idle));
    assert Exec(l, [User(a), User(b)]) == Some(System(Process(l, Process(l, INIT, a), b), Idle));
  }

  /** Every tracked key is really down at the peer, in every run of events, if and
      only if no two keys share a code. */
  lemma TrackedAreHeldIff(l: Layout)
    ensures (forall run: seq<Step> | AllUser(l, run) :: Exec(l, run).Some? && HoldsAll(l, Exec(l, run).value.s))
            <==> NoSharedCodes(l)
  {
    if NoSharedCodes(l) {
      forall run: seq<Step> | AllUser(l, run)
        ensures Exec(l, run).Some? && HoldsAll(l, Exec(l, run).value.s)
      {
        TrackedAreHeld(l, run);
      }
    } else {
      var j, k :| j != k && CodeOf(l, j).Some? && CodeOf(l, j) == CodeOf(l, k);
      var run := SharedCodeDrops(l, j, k);
    }
  }

  // ---------- What an event does, written out ----------

  predicate Modifier(k: Key) {
    || k == ShiftLeft || k == ShiftRight || k == ControlLeft || k == ControlRight
    || k == Alt || k == AltGr || k == MetaLeft || k == MetaRight
  }

  lemma ModifierListed(k: Key)
    ensures Modifier(k) <==> k in MODIFIERS
  {
  }

  /** What is sent for a key with this code, if it has one. */
  function Strokes(down: bool, code: Option<nat>): seq<KeyEvent> {
    match code case Some(c) => [KeyEvent(down, c)] case None => []
  }

  /** Outside a release, after any run: a press of a modifier that is already tracked
      changes nothing and sends nothing; any other press, repeated or not, is tracked
      and sends one down event if the key has a code; a release always untracks and
      sends one up event if the key has a code. */
  lemma EventWrittenOut(l: Layout, run: seq<Step>, e: Event)
    requires Exec(l, run).Some? && NoRace(l, run) && Exec(l, run).value.r == Idle && Genuine(l, e)
    ensures Exec(l, run + [User(e)]).Some? && Exec(l, run + [User(e)]).value.r == Idle
    ensures var s, n := Exec(l, run).value.s, Exec(l, run + [User(e)]).value.s;
            if e.kind == NotAKey then n == s
            else if e.kind.KeyPress? && Modifier(e.kind.key) && e.kind.key in s.toRelease then n == s
            else
              && n.toRelease == (if e.kind.KeyPress? then s.toRelease[e.kind.key := e] else s.toRelease - {e.kind.key})
              && n.sent == s.sent + Strokes(e.kind.KeyPress?, l.translate(l.rawOf(e.kind.key)))
              && n.modifiers == (if Modifier(e.kind.key) then s.modifiers[e.kind.key := e.kind.KeyPress?] else s.modifiers)
  {
    assert (run + [User(e)])[..|run|] == run;
    TablesAgree(l, run);
    RunKeepsInv(l, run);
    var s := Exec(l, run).value.s;
    assert s.modifiers.Keys == MODIFIERS;
    hide Exec, NoRace, Covered, Held, Inv;
    if e.kind != NotAKey {
      ModifierListed(e.kind.key);
    }
    assert s.sent + [] == s.sent;
  }

  /** During a release one key is released with one up event, and Alt and AltGr with a
      further stroke: up, down, up. */
  lemma ReleaseWrittenOut(l: Layout, y: System, k: Key)
    requires Inv(l, y) && y.r.Draining? && y.r.stroke.None? && k in y.r.pending
    ensures var steps := if k == Alt || k == AltGr then [Next(k), StrokeNext, StrokeNext] else [Next(k)];
            var up, down := Strokes(false, l.translate(l.rawOf(k))), Strokes(true, l.translate(l.rawOf(k)));
            var n := ExecFrom(l, y, steps);
            && n.Some? && n.value.r == Draining(y.r.pending - {k}, None)
            && n.value.s.sent == y.s.sent + (if k == Alt || k == AltGr then up + down + up else up)
            && n.value.s.toRelease == y.s.toRelease - {k}
            && n.value.s.modifiers == if Modifier(k) then y.s.modifiers[k := false] else y.s.modifiers
  {
    var raw := y.r.pending[k].raw;
    assert raw == l.rawOf(k) && y.s.modifiers.Keys == MODIFIERS;
    ModifierListed(k);
    hide Inv, Process, ExecFrom, Strokes, Modifier;
    var s1 := ReleasedState(l, y.s, k, raw);
    var left := y.r.pending - {k};
    ExecFromSnoc(l, y, [], Next(k));
    assert [] + [Next(k)] == [Next(k)];
    if k == Alt || k == AltGr {
      assert ExecFrom(l, y, [Next(k)]) == Some(System(s1, Draining(left, Some(Stroke(k, raw, false)))));
      ExtraStroke(l, y, System(s1, Draining(left, Some(Stroke(k, raw, false)))), k, raw, [Next(k)]);
      assert [Next(k)] + [StrokeNext, StrokeNext] == [Next(k), StrokeNext, StrokeNext];
      Regroup(y.s.sent, Strokes(false, l.translate(l.rawOf(k))), Strokes(true, l.translate(l.rawOf(k))));
    }
  }

  lemma Regroup(a: seq<KeyEvent>, b: seq<KeyEvent>, c: seq<KeyEvent>)
    ensures a + b + c + b == a + (b + c + b)
  {
  }

  lemma ExtraStroke(l: Layout, y: System, z: System, k: Key, raw: nat, steps: seq<Step>)
    requires ExecFrom(l, y, steps) == Some(z) && raw == l.rawOf(k) && z.s.modifiers.Keys == MODIFIERS
    requires k in MODIFIERS && !z.s.modifiers[k] && Modifier(k)
    requires z.r.Draining? && z.r.stroke == Some(Stroke(k, raw, false))
    ensures var n := ExecFrom(l, y, steps + [StrokeNext, StrokeNext]);
            && n.Some? && n.value.r == Draining(z.r.pending, None)
            && n.value.s.sent == z.s.sent + Strokes(true, l.translate(l.rawOf(k))) + Strokes(false, l.translate(l.rawOf(k)))
            && n.value.s.toRelease == z.s.toRelease - {k} && n.value.s.modifiers == z.s.modifiers[k := false]
  {
    hide Process, ExecFrom, Strokes, Modifier;
    var s2 := PressedState(l, z.s, k, raw);
    var s3 := ReleasedState(l, s2, k, raw);
    ExecFromSnoc(l, y, steps, StrokeNext);
    ExecFromSnoc(l, y, steps + [StrokeNext], StrokeNext);
    assert steps + [StrokeNext] + [StrokeNext] == steps + [StrokeNext, StrokeNext];
    assert z.s.toRelease[k := Event(KeyPress(k), raw)] - {k} == z.s.toRelease - {k};
    assert z.s.modifiers[k := true][k := false] == z.s.modifiers[k := false];
  }

  lemma ReleasedState(l: Layout, s: State, k: Key, raw: nat) returns (n: State)
    requires raw == l.rawOf(k) && s.modifiers.Keys == MODIFIERS
    ensures n == Process(l, s, Event(KeyRelease(k), raw)) && n.modifiers.Keys == MODIFIERS
    ensures n.sent == s.sent + Strokes(false, l.translate(l.rawOf(k))) && n.toRelease == s.toRelease - {k}
    ensures n.modifiers == if Modifier(k) then s.modifiers[k := false] else s.modifiers
  {
    n := Process(l, s, Event(KeyRelease(k), raw));
  }

  lemma PressedState(l: Layout, s: State, k: Key, raw: nat) returns (n: State)
    requires raw == l.rawOf(k) && s.modifiers.Keys == MODIFIERS && Modifier(k) && !s.modifiers[k]
    ensures n == Process(l, s, Event(KeyPress(k), raw)) && n.modifiers == s.modifiers[k := true]
    ensures n.sent == s.sent + Strokes(true, l.translate(l.rawOf(k)))
    ensures n.toRelease == s.toRelease[k := Event(KeyPress(k), raw)]
  {
    n := Process(l, s, Event(KeyPress(k), raw));
  }

  // ---------- The tables as mutable state ----------

  class Tracker {
    const layout: Layout
    var toRelease: map<Key, Event>
    var modifiers: map<Key, bool>
    var sent: seq<KeyEvent>

    function View(): State reads this { State(toRelease, modifiers, sent) }

    constructor (layout: Layout)
      ensures this.layout == layout && View() == INIT && Inv(layout, System(View(), Idle))
      ensures toRelease == map[] && sent == [] && forall k | Modifier(k) :: k in modifiers && !modifiers[k]
    {
      this.layout := layout;
      toRelease, modifiers, sent := map[], NoneDown(), [];
      new;
      InitInv(layout);
    }

    method EventToKeyEvents(e: Event) returns (out: seq<KeyEvent>)
      modifies this`modifiers, this`toRelease
      ensures out == MapMode(layout, e)
      ensures modifiers == UpdateModifiers(old(modifiers), e) && toRelease == Track(old(toRelease), e)
    {
      match e.kind {
        case KeyPress(k) =>
          if k in modifiers {
            modifiers := modifiers[k := true];
          }
          toRelease := toRelease[k := e];
        case KeyRelease(k) =>
          if k in modifiers {
            modifiers := modifiers[k := false];
          }
          toRelease := toRelease - {k};
        case NotAKey =>
      }
      out := MapMode(layout, e);
    }

    method ProcessEvent(e: Event)
      modifies this
      ensures View() == Process(layout, old(View()), e)
    {
      if LongPress(View(), e) {
        return;
      }
      var out := EventToKeyEvents(e);
      sent := sent + out;
    }

    /** release_remote_keys; the choice of k stands for any iteration order of the table. */
    method ReleaseRemoteKeys()
      requires Inv(layout, System(View(), Idle))
      modifies this
      ensures Inv(layout, System(View(), Idle))
      ensures toRelease == map[] && modifiers == NoneDown() && Held(sent) == {}
    {
      ghost var y := System(View(), Idle);
      ghost var steps := [Clone, Clear];
      var pending := toRelease;
      toRelease := map[];
      ExecFromSnoc(layout, y, [], Clone);
      ExecFromSnoc(layout, y, [Clone], Clear);
      assert [] + [Clone] == [Clone] && [Clone] + [Clear] == steps;
      hide Inv, ExecFrom;
      while pending != map[]
        invariant ReleaseSteps(steps) && steps != []
        invariant ExecFrom(layout, y, steps) == Some(System(View(), Draining(pending, None)))
        decreases |pending|
      {
        var k :| k in pending;
        steps := ReleaseOne(k, pending[k].raw, y, pending, steps);
        pending := pending - {k};
      }
      ExecFromSnoc(layout, y, steps, Finish);
      ReleaseTracks(layout, y, steps + [Finish]);
      ReleaseLeavesNothing(layout, y, steps + [Finish]);
    }

    /** One iteration: release the key, then the extra stroke for Alt and AltGr. */
    method ReleaseOne(k: Key, raw: nat, ghost y: System, ghost pending: map<Key, Event>, ghost steps: seq<Step>)
      returns (ghost more: seq<Step>)
      requires k in pending && pending[k].raw == raw && ReleaseSteps(steps)
      requires ExecFrom(layout, y, steps) == Some(System(View(), Draining(pending, None)))
      modifies this
      ensures ReleaseSteps(more) && more != []
      ensures ExecFrom(layout, y, more) == Some(System(View(), Draining(pending - {k}, None)))
    {
      hide ExecFrom, Process;
      ExecFromSnoc(layout, y, steps, Next(k));
      more := steps + [Next(k)];
      ProcessEvent(Event(KeyRelease(k), raw));
      if IsAlt(k) {
        ExecFromSnoc(layout, y, more, StrokeNext);
        more := more + [StrokeNext];
        ProcessEvent(Event(KeyPress(k), raw));
        ExecFromSnoc(layout, y, more, StrokeNext);
        more := more + [StrokeNext];
        ProcessEvent(Event(KeyRelease(k), raw));
      }
    }
  }
}
